/** The address manager's own consistency check, what exactly it accepts, and what it leaves unchecked. */
module AddrManCheck {
  import opened AddrBook
  import opened AddrManState
  import opened AddrMan

  // mapAddr[a] as C++ reads it: a missing key reads as 0.
  function ReadAddr(s: State, a: NetAddr): int { if a in s.mapAddr then s.mapAddr[a] else 0 }

  // What the first loop tests of entry n.
  predicate EntryChecked(s: State, n: int)
    requires n in s.mapInfo
  {
    var i := s.mapInfo[n];
    && (if i.inTried then i.lastSuccess != 0 && i.refCount == 0 else 1 <= i.refCount <= NEW_BUCKETS_PER_ADDRESS)
    && ReadAddr(s, i.service.ip) == n
    && 0 <= i.randomPos < |s.vRandom| && s.vRandom[i.randomPos] == n
    && 0 <= i.lastTry && 0 <= i.lastSuccess
  }

  // All tried buckets, one after the other.
  function Flat(vv: seq<seq<int>>): seq<int> {
    if vv == [] then [] else Flat(vv[..|vv| - 1]) + vv[|vv| - 1]
  }

  // No new bucket holds an id that want does not expect, nor does an id sit in more buckets than expected.
  ghost predicate NoExcess(vvNew: seq<set<int>>, want: map<int, int>) {
    forall id :: Buckets(vvNew, id) != {} ==> id in want && |Buckets(vvNew, id)| <= want[id]
  }

  function RefCounts(s: State): map<int, int> { map n | n in s.mapInfo && !s.mapInfo[n].inTried :: s.mapInfo[n].refCount }

  // The states Check accepts.
  ghost predicate CheckOk(s: State) {
    && |s.vRandom| == s.nTried + s.nNew
    && (forall n :: n in s.mapInfo ==> EntryChecked(s, n))
    && |TriedIds(s.mapInfo)| == s.nTried && |NewIds(s.mapInfo)| == s.nNew
    && NoDup(Flat(s.vvTried)) && Elems(Flat(s.vvTried)) == TriedIds(s.mapInfo)
    && (forall id :: id in s.mapInfo && !s.mapInfo[id].inTried ==> |Buckets(s.vvNew, id)| == s.mapInfo[id].refCount)
    && (forall id :: Buckets(s.vvNew, id) != {} ==> id in s.mapInfo && !s.mapInfo[id].inTried)
  }

  // The code the tests of entry n give, in their order.
  function EntryCode(s: State, n: int): int
    requires n in s.mapInfo
  {
    var i := s.mapInfo[n];
    if i.inTried && i.lastSuccess == 0 then -1
    else if i.inTried && i.refCount != 0 then -2
    else if !i.inTried && (i.refCount < 0 || i.refCount > NEW_BUCKETS_PER_ADDRESS) then -3
    else if !i.inTried && i.refCount == 0 then -4
    else if ReadAddr(s, i.service.ip) != n then -5
    else if i.randomPos < 0 || i.randomPos >= |s.vRandom| || s.vRandom[i.randomPos] != n then -14
    else if i.lastTry < 0 then -6
    else if i.lastSuccess < 0 then -8
    else 0
  }

  // Reading mapAddr with operator[] leaves a zero where there was nothing.
  function WithReads(s: State, ids: set<int>): map<NetAddr, int> {
    map a | a in s.mapAddr.Keys + Addresses(s, ids) :: ReadAddr(s, a)
  }

  function Addresses(s: State, ids: set<int>): set<NetAddr> {
    set n | n in ids && n in s.mapInfo :: s.mapInfo[n].service.ip
  }

  lemma WithReadsNext(s: State, ids: set<int>, n: int)
    requires n in s.mapInfo
    ensures WithReads(s, ids + {n}) == var a := s.mapInfo[n].service.ip; WithReads(s, ids)[a := ReadAddr(s, a)]
  {
    var a := s.mapInfo[n].service.ip;
    assert n in ids + {n};
    assert Addresses(s, ids + {n}) == Addresses(s, ids) + {a};
  }

  // mapAddr[a]: the value, and the map with the key put in.
  function Subscript(m: map<NetAddr, int>, a: NetAddr): (int, map<NetAddr, int>) {
    if a in m then (m[a], m) else (0, m[a := 0])
  }

  // The tests of one entry, on the map as the reads so far have left it.
  method CheckEntry(s: State, mapAddr0: map<NetAddr, int>, ghost seen: set<int>, n: int)
    returns (err: int, mapAddr: map<NetAddr, int>)
    requires n in s.mapInfo && mapAddr0 == WithReads(s, seen)
    ensures err == EntryCode(s, n)
    ensures mapAddr == if -4 <= err <= -1 then mapAddr0 else WithReads(s, seen + {n})
  {
    WithReadsNext(s, seen, n);
    var info := s.mapInfo[n];
    mapAddr := mapAddr0;
    if info.inTried {
      if info.lastSuccess == 0 { return -1, mapAddr; }
      if info.refCount != 0 { return -2, mapAddr; }
    } else {
      if info.refCount < 0 || info.refCount > NEW_BUCKETS_PER_ADDRESS { return -3, mapAddr; }
      if info.refCount == 0 { return -4, mapAddr; }
    }
    var read := Subscript(mapAddr, info.service.ip);
    mapAddr := read.1;
    if read.0 != n { return -5, mapAddr; }
    if info.randomPos < 0 || info.randomPos >= |s.vRandom| || s.vRandom[info.randomPos] != n { return -14, mapAddr; }
    if info.lastTry < 0 { return -6, mapAddr; }
    if info.lastSuccess < 0 { return -8, mapAddr; }
    err := 0;
  }

  lemma CodeZero(s: State, n: int)
    requires n in s.mapInfo
    ensures EntryCode(s, n) == 0 <==> EntryChecked(s, n)
  {
  }

  function Failing(s: State): set<int> { set n | n in s.mapInfo && EntryCode(s, n) != 0 }

  // The code of the failing entry with the least id.
  function EntriesCode(s: State): int {
    if Failing(s) == {} then 0 else EntryCode(s, Least(Failing(s)))
  }

  // The entries whose address has been read when the first loop ends.
  function Visited(s: State): set<int> {
    if Failing(s) == {} then s.mapInfo.Keys
    else
      var f := Least(Failing(s));
      (set n | n in s.mapInfo && n < f) + (if -4 <= EntryCode(s, f) <= -1 then {} else {f})
  }

  // The first loop has passed the entries below those of rest.
  ghost predicate PassedBut(s: State, rest: set<int>) {
    && rest <= s.mapInfo.Keys
    && (forall n :: n in s.mapInfo && n !in rest ==> EntryCode(s, n) == 0)
    && (forall n, m :: n in s.mapInfo && n !in rest && m in rest ==> n < m)
  }

  lemma PassedNext(s: State, rest: set<int>)
    requires PassedBut(s, rest) && rest != {}
    ensures var n := Least(rest);
            && n in s.mapInfo
            && (EntryCode(s, n) == 0 ==> PassedBut(s, rest - {n}))
            && (EntryCode(s, n) != 0 ==>
                  && EntriesCode(s) == EntryCode(s, n)
                  && Visited(s) == s.mapInfo.Keys - rest + (if -4 <= EntryCode(s, n) <= -1 then {} else {n}))
  {
    hide EntryCode;
    var n := Least(rest);
    if EntryCode(s, n) != 0 {
      assert n in Failing(s);
      LeastIs(Failing(s), n);
      assert (set m | m in s.mapInfo && m < n) == s.mapInfo.Keys - rest;
    }
  }

  lemma LeastIs(s: set<int>, x: int)
    requires x in s && forall y :: y in s ==> x <= y
    ensures Least(s) == x
  {
  }

  lemma PassedAll(s: State)
    requires PassedBut(s, {})
    ensures EntriesCode(s) == 0 && Failing(s) == {} && Visited(s) == s.mapInfo.Keys
    ensures forall n :: n in s.mapInfo ==> EntryChecked(s, n)
  {
    hide EntryCode, EntryChecked;
    assert Failing(s) == {};
    forall n | n in s.mapInfo
      ensures EntryChecked(s, n)
    {
      CodeZero(s, n);
    }
  }

  // The tried ids and the counts of the new ones among ids.
  ghost predicate Gathered(s: State, ids: set<int>, setTried: set<int>, mapNew: map<int, int>) {
    setTried == TriedIds(s.mapInfo) * ids && mapNew == (map n | n in ids && n in RefCounts(s) :: RefCounts(s)[n])
  }

  lemma GatheredNext(s: State, ids: set<int>, setTried: set<int>, mapNew: map<int, int>, n: int)
    requires Gathered(s, ids, setTried, mapNew) && n in s.mapInfo
    ensures if s.mapInfo[n].inTried then Gathered(s, ids + {n}, setTried + {n}, mapNew)
            else Gathered(s, ids + {n}, setTried, mapNew[n := s.mapInfo[n].refCount])
  {
  }

  lemma GatheredEnds(s: State, setTried: set<int>, mapNew: map<int, int>)
    ensures Gathered(s, {}, {}, map[])
    ensures Gathered(s, s.mapInfo.Keys, setTried, mapNew) ==> setTried == TriedIds(s.mapInfo) && mapNew == RefCounts(s)
  {
    assert TriedIds(s.mapInfo) * s.mapInfo.Keys == TriedIds(s.mapInfo);
  }

  // The first loop: every entry by itself, in the order of the ids; returns the tried ids and the counts of the new ones.
  method CheckEntries(s: State) returns (err: int, setTried: set<int>, mapNew: map<int, int>, mapAddr: map<NetAddr, int>)
    ensures err == EntriesCode(s) && mapAddr == WithReads(s, Visited(s))
    ensures err == 0 ==> (forall n :: n in s.mapInfo ==> EntryChecked(s, n))
                         && setTried == TriedIds(s.mapInfo) && mapNew == RefCounts(s)
  {
    hide EntryChecked, EntryCode, EntriesCode, Visited, WithReads, PassedBut, Gathered;
    GatheredEnds(s, {}, map[]);
    NoReads(s);
    setTried, mapNew, mapAddr := {}, map[], s.mapAddr;
    var rest := s.mapInfo.Keys;
    assert s.mapInfo.Keys - rest == {};
    while rest != {}
      invariant PassedBut(s, rest) && Gathered(s, s.mapInfo.Keys - rest, setTried, mapNew)
      invariant mapAddr == WithReads(s, s.mapInfo.Keys - rest)
      decreases |rest|
    {
      var n := Least(rest);
      PassedNext(s, rest);
      GatheredNext(s, s.mapInfo.Keys - rest, setTried, mapNew, n);
      ghost var seen := s.mapInfo.Keys - rest;
      err, mapAddr := CheckEntry(s, mapAddr, seen, n);
      if err != 0 {
        assert seen + {} == seen;
        return;
      }
      if s.mapInfo[n].inTried {
        setTried := setTried + {n};
      } else {
        mapNew := mapNew[n := s.mapInfo[n].refCount];
      }
      assert s.mapInfo.Keys - (rest - {n}) == seen + {n};
      rest := rest - {n};
    }
    assert s.mapInfo.Keys - rest == s.mapInfo.Keys;
    PassedAll(s);
    GatheredEnds(s, setTried, mapNew);
    err := 0;
  }

  lemma NoReads(s: State)
    ensures WithReads(s, {}) == s.mapAddr && PassedBut(s, s.mapInfo.Keys)
  {
  }

  lemma {:induction false} FlatPrefix(vv: seq<seq<int>>, n: nat)
    requires n <= |vv|
    ensures Flat(vv[..n]) <= Flat(vv)
    ensures n < |vv| ==> Flat(vv[..n]) + vv[n] <= Flat(vv)
    decreases |vv|
  {
    if n < |vv| {
      var front := vv[..|vv| - 1];
      assert front[..n] == vv[..n];
      if n < |front| {
        FlatPrefix(front, n);
      }
    } else {
      assert vv[..n] == vv;
    }
  }

  // The second loop: every tried id is expected, and only once; returns the expected ids not met.
  method CheckTried(vvTried: seq<seq<int>>, expected: set<int>) returns (err: int, setTried: set<int>)
    ensures err == if NoDup(Flat(vvTried)) && Elems(Flat(vvTried)) <= expected then 0 else -11
    ensures err == 0 ==> setTried == expected - Elems(Flat(vvTried))
  {
    setTried := expected;
    for n := 0 to |vvTried|
      invariant NoDup(Flat(vvTried[..n])) && Elems(Flat(vvTried[..n])) <= expected
      invariant setTried == expected - Elems(Flat(vvTried[..n]))
    {
      var vTried := vvTried[n];
      ghost var before := Flat(vvTried[..n]);
      FlatPrefix(vvTried, n);
      for i := 0 to |vTried|
        invariant NoDup(before + vTried[..i]) && Elems(before + vTried[..i]) <= expected
        invariant setTried == expected - Elems(before + vTried[..i])
      {
        assert before + vTried[..i + 1] == (before + vTried[..i]) + [vTried[i]];
        if vTried[i] !in setTried {
          assert before + vTried[..i + 1] <= Flat(vvTried);
          Refused(before + vTried[..i], vTried[i], Flat(vvTried), expected);
          return -11, setTried;
        }
        assert Elems(before + vTried[..i + 1]) == Elems(before + vTried[..i]) + {vTried[i]};
        setTried := setTried - {vTried[i]};
      }
      assert vTried[..|vTried|] == vTried;
      assert vvTried[..n + 1][..n] == vvTried[..n];
    }
    assert vvTried[..|vvTried|] == vvTried;
    err := 0;
  }

  lemma Refused(done: seq<int>, x: int, all: seq<int>, expected: set<int>)
    requires done + [x] <= all && x !in expected - Elems(done)
    ensures !(NoDup(all) && Elems(all) <= expected)
  {
    assert all[|done|] == x;
    if x in expected {
      var k :| 0 <= k < |done| && done[k] == x;
      assert all[k] == x;
    } else {
      assert x in Elems(all);
    }
  }

  // Times id was met when the first b buckets and the ids of met in bucket b were visited.
  function Met(vvNew: seq<set<int>>, b: nat, met: set<int>, id: int): nat
    requires b <= |vvNew|
  {
    |Buckets(vvNew[..b], id)| + (if id in met then 1 else 0)
  }

  lemma MetBound(vvNew: seq<set<int>>, b: nat, met: set<int>, id: int)
    requires b < |vvNew| && met <= vvNew[b]
    ensures Met(vvNew, b, met, id) <= |Buckets(vvNew, id)|
    ensures Met(vvNew, b, vvNew[b], id) == Met(vvNew, b + 1, {}, id)
  {
    BucketsPrefix(vvNew, id, b);
    assert Buckets(vvNew[..b + 1], id) <= Buckets(vvNew, id);
    CardMono(Buckets(vvNew[..b + 1], id), Buckets(vvNew, id));
  }

  // The counts still open after each id was met so often.
  ghost predicate Open(mapNew: map<int, int>, expected: map<int, int>, vvNew: seq<set<int>>, b: nat, met: set<int>)
    requires b <= |vvNew|
  {
    && (forall id :: id in mapNew <==> id in expected && Met(vvNew, b, met, id) < expected[id])
    && (forall id :: id in mapNew ==> mapNew[id] == expected[id] - Met(vvNew, b, met, id))
    && (forall id :: Met(vvNew, b, met, id) > 0 ==> id in expected && Met(vvNew, b, met, id) <= expected[id])
  }

  // Meeting an id that is still open.
  lemma OpenStep(mapNew: map<int, int>, expected: map<int, int>, vvNew: seq<set<int>>, b: nat, met: set<int>, it: int)
    requires b < |vvNew| && Open(mapNew, expected, vvNew, b, met) && it in mapNew && it !in met
    ensures Open(if mapNew[it] - 1 == 0 then mapNew - {it} else mapNew[it := mapNew[it] - 1], expected, vvNew, b, met + {it})
  {
    var post := if mapNew[it] - 1 == 0 then mapNew - {it} else mapNew[it := mapNew[it] - 1];
    forall id
      ensures Met(vvNew, b, met + {it}, id) == Met(vvNew, b, met, id) + (if id == it then 1 else 0)
    {
    }
  }

  lemma OpenNext(mapNew: map<int, int>, expected: map<int, int>, vvNew: seq<set<int>>, b: nat)
    requires b < |vvNew| && Open(mapNew, expected, vvNew, b, vvNew[b])
    ensures Open(mapNew, expected, vvNew, b + 1, {})
  {
    forall id
      ensures Met(vvNew, b, vvNew[b], id) == Met(vvNew, b + 1, {}, id)
    {
      MetBound(vvNew, b, {}, id);
    }
  }

  lemma OpenStart(expected: map<int, int>, vvNew: seq<set<int>>)
    requires forall id :: id in expected ==> expected[id] > 0
    ensures Open(expected, expected, vvNew, 0, {})
  {
    forall id
      ensures Met(vvNew, 0, {}, id) == 0
    {
      assert Buckets(vvNew[..0], id) == {};
    }
  }

  lemma OpenEnd(mapNew: map<int, int>, expected: map<int, int>, vvNew: seq<set<int>>)
    requires Open(mapNew, expected, vvNew, |vvNew|, {})
    ensures NoExcess(vvNew, expected)
    ensures forall id :: id in mapNew <==> id in expected && |Buckets(vvNew, id)| < expected[id]
  {
    assert vvNew[..|vvNew|] == vvNew;
    forall id
      ensures Met(vvNew, |vvNew|, {}, id) == |Buckets(vvNew, id)|
    {
    }
    forall id | Buckets(vvNew, id) != {}
      ensures id in expected && |Buckets(vvNew, id)| <= expected[id]
    {
      assert Met(vvNew, |vvNew|, {}, id) > 0;
    }
  }

  lemma NotOpen(mapNew: map<int, int>, expected: map<int, int>, vvNew: seq<set<int>>, b: nat, met: set<int>, it: int)
    requires b < |vvNew| && Open(mapNew, expected, vvNew, b, met) && it !in mapNew && it !in met
    requires met + {it} <= vvNew[b]
    ensures !NoExcess(vvNew, expected)
  {
    MetBound(vvNew, b, met + {it}, it);
    assert Met(vvNew, b, met + {it}, it) == Met(vvNew, b, met, it) + 1;
  }

  // The third loop: no id is met more often than expected; returns the counts still open.
  method CheckNew(vvNew: seq<set<int>>, expected: map<int, int>) returns (err: int, mapNew: map<int, int>)
    requires forall id :: id in expected ==> expected[id] > 0
    ensures err == if NoExcess(vvNew, expected) then 0 else -12
    ensures err == 0 ==> forall id :: id in mapNew <==> id in expected && |Buckets(vvNew, id)| < expected[id]
  {
    hide Open, NoExcess, Buckets;
    OpenStart(expected, vvNew);
    mapNew := expected;
    for n := 0 to |vvNew|
      invariant Open(mapNew, expected, vvNew, n, {})
    {
      var rest := vvNew[n];
      assert vvNew[n] - rest == {};
      while rest != {}
        invariant rest <= vvNew[n]
        invariant Open(mapNew, expected, vvNew, n, vvNew[n] - rest)
        decreases |rest|
      {
        var it := Least(rest);
        ghost var met := vvNew[n] - rest;
        assert vvNew[n] - (rest - {it}) == met + {it};
        if it !in mapNew {
          NotOpen(mapNew, expected, vvNew, n, met, it);
          return -12, mapNew;
        }
        OpenStep(mapNew, expected, vvNew, n, met, it);
        if mapNew[it] - 1 == 0 {
          mapNew := mapNew - {it};
        } else {
          mapNew := mapNew[it := mapNew[it] - 1];
        }
        rest := rest - {it};
      }
      assert vvNew[n] - rest == vvNew[n];
      OpenNext(mapNew, expected, vvNew, n);
    }
    OpenEnd(mapNew, expected, vvNew);
    err := 0;
  }

  lemma PositiveCounts(s: State)
    requires forall n :: n in s.mapInfo ==> EntryChecked(s, n)
    ensures forall id :: id in RefCounts(s) ==> RefCounts(s)[id] > 0
  {
  }

  // Some new id is in fewer buckets than its count says.
  ghost predicate Missing(s: State) {
    exists id :: id in RefCounts(s) && |Buckets(s.vvNew, id)| < RefCounts(s)[id]
  }

  // The code of every exit, in the order of the tests.
  ghost function CheckCode(s: State): int {
    if |s.vRandom| != s.nTried + s.nNew then -7
    else if EntriesCode(s) != 0 then EntriesCode(s)
    else if |TriedIds(s.mapInfo)| != s.nTried then -9
    else if |NewIds(s.mapInfo)| != s.nNew then -10
    else if !(NoDup(Flat(s.vvTried)) && Elems(Flat(s.vvTried)) <= TriedIds(s.mapInfo)) then -11
    else if !NoExcess(s.vvNew, RefCounts(s)) then -12
    else if Elems(Flat(s.vvTried)) != TriedIds(s.mapInfo) then -13
    else if Missing(s) then -15
    else 0
  }

  // Nothing is left over exactly when every id was met as often as it should be.
  lemma LeftOver(s: State, triedLeft: set<int>, newLeft: map<int, int>)
    requires Elems(Flat(s.vvTried)) <= TriedIds(s.mapInfo) && triedLeft == TriedIds(s.mapInfo) - Elems(Flat(s.vvTried))
    requires forall id :: id in newLeft <==> id in RefCounts(s) && |Buckets(s.vvNew, id)| < RefCounts(s)[id]
    ensures triedLeft == {} <==> Elems(Flat(s.vvTried)) == TriedIds(s.mapInfo)
    ensures newLeft == map[] <==> !Missing(s)
  {
    hide Flat, Elems, Buckets, RefCounts;
    if triedLeft == {} {
      forall x | x in TriedIds(s.mapInfo)
        ensures x in Elems(Flat(s.vvTried))
      {
        assert x !in triedLeft;
      }
    }
    if Missing(s) {
      var id :| id in RefCounts(s) && |Buckets(s.vvNew, id)| < RefCounts(s)[id];
      assert id in newLeft;
    } else {
      forall id
        ensures id !in newLeft
      {
      }
      assert newLeft == map[];
    }
  }

  // Check_: the code of the first test that fails, and mapAddr as its reads leave it.
  method Check(s: State) returns (err: int, mapAddr: map<NetAddr, int>)
    ensures err == CheckCode(s)
    ensures mapAddr == if |s.vRandom| != s.nTried + s.nNew then s.mapAddr else WithReads(s, Visited(s))
  {
    hide EntryChecked, EntriesCode, Visited, WithReads, NoDup, NoExcess, Flat, Elems, Buckets, Missing;
    if |s.vRandom| != s.nTried + s.nNew { return -7, s.mapAddr; }
    var setTried, mapNew;
    err, setTried, mapNew, mapAddr := CheckEntries(s);
    if err != 0 { return; }
    if |setTried| != s.nTried { return -9, mapAddr; }
    assert mapNew.Keys == NewIds(s.mapInfo);
    if |mapNew| != s.nNew { return -10, mapAddr; }
    var triedLeft, newLeft;
    err, triedLeft := CheckTried(s.vvTried, setTried);
    if err != 0 { return; }
    PositiveCounts(s);
    err, newLeft := CheckNew(s.vvNew, mapNew);
    if err != 0 { return; }
    LeftOver(s, triedLeft, newLeft);
    if |triedLeft| != 0 { return -13, mapAddr; }
    if |newLeft| != 0 { return -15, mapAddr; }
    err := 0;
  }

  // The check passes exactly on the states CheckOk describes.
  lemma CheckPasses(s: State)
    ensures CheckCode(s) == 0 <==> CheckOk(s)
  {
    hide EntryChecked, EntryCode, NoDup, Flat, Elems, Buckets;
    EntriesPass(s);
    CheckOkParts(s);
    if CheckCode(s) == 0 {
      forall id | id in s.mapInfo && !s.mapInfo[id].inTried
        ensures |Buckets(s.vvNew, id)| == s.mapInfo[id].refCount
      {
        PositiveCounts(s);
        assert id in RefCounts(s) && RefCounts(s)[id] > 0;
        NoBuckets(s.vvNew, id);
      }
    }
    if CheckOk(s) {
      assert forall id :: id in RefCounts(s) ==> |Buckets(s.vvNew, id)| == RefCounts(s)[id];
    }
  }

  lemma NoBuckets(vvNew: seq<set<int>>, id: int)
    ensures Buckets(vvNew, id) == {} ==> |Buckets(vvNew, id)| == 0
  {
  }

  lemma EntriesPass(s: State)
    ensures EntriesCode(s) == 0 <==> forall n :: n in s.mapInfo ==> EntryChecked(s, n)
  {
    hide EntryChecked, EntryCode;
    forall n | n in s.mapInfo
      ensures EntryCode(s, n) == 0 <==> EntryChecked(s, n)
    {
      CodeZero(s, n);
    }
    if Failing(s) != {} {
      var f := Least(Failing(s));
      assert f in Failing(s) && !EntryChecked(s, f);
    } else {
      forall n | n in s.mapInfo
        ensures EntryCode(s, n) == 0
      {
        assert n !in Failing(s);
      }
    }
  }

  // CheckOk gives what the test of the new buckets needs.
  lemma Exits(s: State)
    requires CheckOk(s)
    ensures NoExcess(s.vvNew, RefCounts(s))
  {
    hide EntryChecked, NoDup;
  }

  lemma CheckOkParts(s: State)
    ensures CheckOk(s) ==> && |s.vRandom| == s.nTried + s.nNew
                           && (forall n :: n in s.mapInfo ==> EntryChecked(s, n))
                           && |TriedIds(s.mapInfo)| == s.nTried && |NewIds(s.mapInfo)| == s.nNew
                           && NoDup(Flat(s.vvTried)) && Elems(Flat(s.vvTried)) <= TriedIds(s.mapInfo)
                           && NoExcess(s.vvNew, RefCounts(s))
  {
    hide EntryChecked, NoDup;
    if CheckOk(s) {
      Exits(s);
    }
  }

  // ---------- Check against the invariant ----------

  // What the invariant says and Check does not test. Of the addresses of the ids it misses that of id 0 only: a
  // missing one reads as 0.
  ghost predicate Unchecked(h: Hasher, s: State) {
    && 0 <= s.nIdCount && (forall id :: id in s.mapInfo ==> 0 <= id < s.nIdCount)
    && (0 in s.mapInfo ==> s.mapInfo[0].service.ip in s.mapAddr)
    && (forall a :: a in s.mapAddr ==> s.mapAddr[a] in s.mapInfo && s.mapInfo[s.mapAddr[a]].service.ip == a)
    && |s.vvNew| == NEW_BUCKET_COUNT && |s.vvTried| == TRIED_BUCKET_COUNT
    && (forall b :: 0 <= b < NEW_BUCKET_COUNT ==> |s.vvNew[b]| <= NEW_BUCKET_SIZE)
    && (forall b :: 0 <= b < TRIED_BUCKET_COUNT ==> |s.vvTried[b]| <= TRIED_BUCKET_SIZE)
    && (forall b, id :: 0 <= b < TRIED_BUCKET_COUNT && id in s.vvTried[b] && id in s.mapInfo ==>
                          h.TriedBucket(s.mapInfo[id].service) == b)
  }

  lemma {:induction false} FlatElems(vv: seq<seq<int>>, x: int)
    ensures x in Flat(vv) <==> exists b :: 0 <= b < |vv| && x in vv[b]
  {
    if vv != [] {
      var front := vv[..|vv| - 1];
      FlatElems(front, x);
      if x in Flat(front) {
        var b :| 0 <= b < |front| && x in front[b];
        assert x in vv[b];
      }
      if b :| 0 <= b < |front| && x in vv[b] {
        assert x in front[b];
      }
    }
  }

  lemma NoDupConcat(xs: seq<int>, ys: seq<int>)
    ensures NoDup(xs + ys) <==> NoDup(xs) && NoDup(ys) && forall x :: x in xs ==> x !in ys
  {
    var all := xs + ys;
    assert forall i :: 0 <= i < |xs| ==> all[i] == xs[i];
    assert forall i :: 0 <= i < |ys| ==> all[|xs| + i] == ys[i];
    if NoDup(all) {
      forall i, j | 0 <= i < j < |xs|
        ensures xs[i] != xs[j]
      {
        assert all[i] != all[j];
      }
      forall i, j | 0 <= i < j < |ys|
        ensures ys[i] != ys[j]
      {
        assert all[|xs| + i] != all[|xs| + j];
      }
      forall x | x in xs
        ensures x !in ys
      {
        var i :| 0 <= i < |xs| && xs[i] == x;
        forall j | 0 <= j < |ys|
          ensures ys[j] != x
        {
          assert all[i] != all[|xs| + j];
        }
      }
    } else {
      var i, j :| 0 <= i < j < |all| && all[i] == all[j];
      if j < |xs| {
        assert xs[i] == xs[j];
      } else if i < |xs| {
        assert xs[i] in xs && ys[j - |xs|] == xs[i];
      } else {
        assert ys[i - |xs|] == ys[j - |xs|];
      }
    }
  }

  // No id lies in two buckets.
  ghost predicate Apart(vv: seq<seq<int>>) {
    forall b, c, x :: 0 <= b < c < |vv| && x in vv[b] ==> x !in vv[c]
  }

  // No id of last lies in an earlier bucket.
  ghost predicate ApartFrom(front: seq<seq<int>>, last: seq<int>) {
    forall b, x :: 0 <= b < |front| && x in front[b] ==> x !in last
  }

  lemma ApartNext(vv: seq<seq<int>>)
    requires vv != []
    ensures var front, last := vv[..|vv| - 1], vv[|vv| - 1];
            Apart(vv) <==> Apart(front) && ApartFrom(front, last)
  {
    var front, last := vv[..|vv| - 1], vv[|vv| - 1];
    if Apart(front) && ApartFrom(front, last) {
      forall b, c, x | 0 <= b < c < |vv| && x in vv[b]
        ensures x !in vv[c]
      {
        assert vv[b] == front[b];
      }
    }
    if Apart(vv) {
      assert forall b :: 0 <= b < |front| ==> front[b] == vv[b];
    }
  }

  lemma FlatApart(front: seq<seq<int>>, last: seq<int>)
    ensures (forall x :: x in Flat(front) ==> x !in last) <==> ApartFrom(front, last)
  {
    forall x
      ensures x in Flat(front) <==> exists b :: 0 <= b < |front| && x in front[b]
    {
      FlatElems(front, x);
    }
  }

  lemma {:induction false} FlatNoDup(vv: seq<seq<int>>)
    ensures NoDup(Flat(vv)) <==> (forall b :: 0 <= b < |vv| ==> NoDup(vv[b])) && Apart(vv)
  {
    if vv != [] {
      hide NoDup, Apart, ApartFrom;
      var front, last := vv[..|vv| - 1], vv[|vv| - 1];
      FlatNoDup(front);
      NoDupConcat(Flat(front), last);
      FlatApart(front, last);
      ApartNext(vv);
    }
  }

  // The numbers below n.
  function Range(n: nat): (r: set<int>)
    ensures |r| == n && forall i :: i in r <==> 0 <= i < n
  {
    if n == 0 then {} else Range(n - 1) + {n - 1}
  }

  lemma {:induction false} PositionCard(ids: set<int>, m: map<int, Info>)
    requires forall x :: x in ids ==> x in m
    requires forall x, y :: x in ids && y in ids && m[x].randomPos == m[y].randomPos ==> x == y
    ensures |set x | x in ids :: m[x].randomPos| == |ids|
  {
    var image := set x | x in ids :: m[x].randomPos;
    if ids == {} {
      assert image == {};
    } else {
      var x := Member(ids);
      PositionCard(ids - {x}, m);
      assert image == (set y | y in ids - {x} :: m[y].randomPos) + {m[x].randomPos};
    }
  }

  // As many slots as ids, and every id in its slot: so every slot holds an id.
  lemma Pigeonhole(m: map<int, Info>, vRandom: seq<int>)
    requires forall id :: id in m ==> 0 <= m[id].randomPos < |vRandom| && vRandom[m[id].randomPos] == id
    requires |vRandom| == |m|
    ensures RandomOk(m, vRandom)
  {
    PositionCard(m.Keys, m);
    var slots, used := Range(|vRandom|), set x | x in m.Keys :: m[x].randomPos;
    assert used <= slots;
    assert slots == used by {
      assert |slots - used| == |slots| - |used|;
    }
    forall i | 0 <= i < |vRandom|
      ensures vRandom[i] in m && m[vRandom[i]].randomPos == i
    {
      assert i in used;
    }
  }

  lemma FlatTried(h: Hasher, s: State)
    requires TriedOk(h, s)
    ensures NoDup(Flat(s.vvTried)) && Elems(Flat(s.vvTried)) == TriedIds(s.mapInfo)
  {
    FlatNoDup(s.vvTried);
    forall b, c, x | 0 <= b < c < |s.vvTried| && x in s.vvTried[b]
      ensures x !in s.vvTried[c]
    {
      assert h.TriedBucket(s.mapInfo[x].service) == b;
    }
    assert Apart(s.vvTried);
    forall x
      ensures x in Elems(Flat(s.vvTried)) <==> x in TriedIds(s.mapInfo)
    {
      FlatElems(s.vvTried, x);
      if x in TriedIds(s.mapInfo) {
        assert x in s.vvTried[h.TriedBucket(s.mapInfo[x].service)];
      }
    }
  }

  lemma TriedFlat(h: Hasher, s: State)
    requires Unchecked(h, s) && NoDup(Flat(s.vvTried)) && Elems(Flat(s.vvTried)) == TriedIds(s.mapInfo)
    ensures TriedOk(h, s)
  {
    FlatNoDup(s.vvTried);
    forall b, id | 0 <= b < TRIED_BUCKET_COUNT && id in s.vvTried[b]
      ensures id in s.mapInfo && s.mapInfo[id].inTried && h.TriedBucket(s.mapInfo[id].service) == b
    {
      FlatElems(s.vvTried, id);
      assert id in Elems(Flat(s.vvTried));
    }
    forall id | id in s.mapInfo && s.mapInfo[id].inTried
      ensures id in s.vvTried[h.TriedBucket(s.mapInfo[id].service)]
    {
      assert id in Elems(Flat(s.vvTried));
      FlatElems(s.vvTried, id);
    }
  }

  lemma NewFlat(s: State)
    requires |s.vvNew| == NEW_BUCKET_COUNT && forall b :: 0 <= b < NEW_BUCKET_COUNT ==> |s.vvNew[b]| <= NEW_BUCKET_SIZE
    requires forall n :: n in s.mapInfo ==> EntryChecked(s, n)
    requires forall id :: id in s.mapInfo && !s.mapInfo[id].inTried ==> |Buckets(s.vvNew, id)| == s.mapInfo[id].refCount
    requires forall id :: Buckets(s.vvNew, id) != {} ==> id in s.mapInfo && !s.mapInfo[id].inTried
    requires NONE !in s.mapInfo
    ensures NewOk(s, NONE)
  {
    forall b, id | 0 <= b < NEW_BUCKET_COUNT && id in s.vvNew[b]
      ensures id in s.mapInfo && !s.mapInfo[id].inTried
    {
      assert b in Buckets(s.vvNew, id);
    }
    forall id | id in s.mapInfo
      ensures s.mapInfo[id].refCount == |Buckets(s.vvNew, id)|
    {
      assert EntryChecked(s, id);
    }
    forall id | id in s.mapInfo
      ensures if s.mapInfo[id].inTried then s.mapInfo[id].refCount == 0 else 1 <= s.mapInfo[id].refCount <= NEW_BUCKETS_PER_ADDRESS
    {
      assert EntryChecked(s, id);
    }
  }

  lemma NewChecked(s: State)
    requires NewOk(s, NONE) && NONE !in s.mapInfo
    ensures forall id :: id in s.mapInfo && !s.mapInfo[id].inTried ==> |Buckets(s.vvNew, id)| == s.mapInfo[id].refCount
    ensures forall id :: Buckets(s.vvNew, id) != {} ==> id in s.mapInfo && !s.mapInfo[id].inTried
  {
    forall id | Buckets(s.vvNew, id) != {}
      ensures id in s.mapInfo && !s.mapInfo[id].inTried
    {
      var b := Member(Buckets(s.vvNew, id));
      assert id in s.vvNew[b];
    }
  }

  // Every state the operations reach passes the check.
  lemma InvPasses(h: Hasher, s: State)
    requires Inv(h, s)
    ensures CheckOk(s) && Unchecked(h, s)
  {
    RandomSize(s.mapInfo, s.vRandom);
    CountSize(s.mapInfo);
    FlatTried(h, s);
    NewChecked(s);
    forall n | n in s.mapInfo
      ensures EntryChecked(s, n)
    {
      assert s.mapAddr[s.mapInfo[n].service.ip] == n;
    }
    TriedUnchecked(h, s);
  }

  lemma TriedUnchecked(h: Hasher, s: State)
    requires AddrOk(s) && NewOk(s, NONE) && TriedOk(h, s)
    ensures Unchecked(h, s)
  {
  }

  lemma AddressesFound(h: Hasher, s: State)
    requires CheckOk(s) && Unchecked(h, s)
    ensures AddrOk(s)
  {
    hide NoDup, Flat, Elems, Buckets;
    forall id | id in s.mapInfo
      ensures s.mapInfo[id].service.ip in s.mapAddr && s.mapAddr[s.mapInfo[id].service.ip] == id
    {
      assert EntryChecked(s, id);
    }
  }

  // vRandom is a permutation because as many slots as ids leave no slot for anything else.
  lemma PassingRandom(s: State)
    requires CheckOk(s)
    ensures RandomOk(s.mapInfo, s.vRandom) && TimesOk(s)
  {
    hide Flat, NoDup, Elems, Buckets;
    CountSize(s.mapInfo);
    forall id | id in s.mapInfo
      ensures 0 <= s.mapInfo[id].randomPos < |s.vRandom| && s.vRandom[s.mapInfo[id].randomPos] == id
      ensures 0 <= s.mapInfo[id].lastTry && 0 <= s.mapInfo[id].lastSuccess
      ensures s.mapInfo[id].inTried ==> s.mapInfo[id].lastSuccess != 0
    {
      assert EntryChecked(s, id);
    }
    Pigeonhole(s.mapInfo, s.vRandom);
  }

  // A passing state satisfies the invariant up to what Check does not look at.
  lemma PassingInv(h: Hasher, s: State)
    requires CheckOk(s) && Unchecked(h, s)
    ensures Inv(h, s)
  {
    hide Flat, NoDup, Elems, Buckets, EntryChecked, AddrOk, RandomOk, TimesOk, NewOk, TriedOk;
    AddressesFound(h, s);
    PassingRandom(s);
    TriedFlat(h, s);
    NewFlat(s);
  }

  // Exactly what DEBUG_ADDRMAN builds do and do not catch.
  lemma CheckExact(h: Hasher, s: State)
    ensures Inv(h, s) <==> CheckCode(s) == 0 && Unchecked(h, s)
  {
    hide CheckOk, CheckCode, Unchecked, InvBut;
    CheckPasses(s);
    if Inv(h, s) { InvPasses(h, s); }
    if CheckOk(s) && Unchecked(h, s) { PassingInv(h, s); }
  }

  // On a state that satisfies the invariant the reads put nothing in.
  lemma CheckReadsOnly(h: Hasher, s: State, ids: set<int>)
    requires Inv(h, s)
    ensures WithReads(s, ids) == s.mapAddr
  {
    InvParts(h, s, NONE);
    assert Addresses(s, ids) <= s.mapAddr.Keys;
  }

  // A state the check passes and the invariant does not: mapAddr still finds an address that was given away.
  lemma StaleAddressPasses(h: Hasher, a: NetAddr)
    ensures var s := State(1, map[], map[a := 0], [], 0, seq(TRIED_BUCKET_COUNT, _ => []), 0, seq(NEW_BUCKET_COUNT, _ => {}));
            CheckCode(s) == 0 && !Inv(h, s)
  {
    var s := State(1, map[], map[a := 0], [], 0, seq(TRIED_BUCKET_COUNT, _ => []), 0, seq(NEW_BUCKET_COUNT, _ => {}));
    FlatOfNothing(s.vvTried);
    assert TriedIds(s.mapInfo) == {} && NewIds(s.mapInfo) == {} && Failing(s) == {};
    forall id
      ensures Buckets(s.vvNew, id) == {}
    {
    }
    assert a in s.mapAddr && s.mapAddr[a] !in s.mapInfo;
  }

  lemma {:induction false} FlatOfNothing(vv: seq<seq<int>>)
    requires forall b :: 0 <= b < |vv| ==> vv[b] == []
    ensures Flat(vv) == []
  {
    if vv != [] {
      FlatOfNothing(vv[..|vv| - 1]);
    }
  }
}
