/** How SelectTried shuffles the first slots of a tried bucket, and whether the slot it remembers holds the
    entry it looked for. */
module TriedShuffle {
  import opened AddrBook
  import opened AddrManState

  const TRIED_ENTRIES_INSPECT_ON_EVICT := 4

  // Draw i is of slot i or a later one.
  ghost predicate Draws(v: seq<int>, n: seq<int>) {
    |n| <= |v| && forall i :: 0 <= i < |n| ==> i <= n[i] < |v|
  }

  // How many slots are shuffled.
  function Inspected(size: nat): nat {
    if size < TRIED_ENTRIES_INSPECT_ON_EVICT then size else TRIED_ENTRIES_INSPECT_ON_EVICT
  }

  // Slot i has changed places with slot n[i], for each i in turn.
  ghost function Shuffled(v: seq<int>, n: seq<int>): (w: seq<int>)
    requires Draws(v, n)
    ensures |w| == |v|
  {
    if n == [] then v
    else
      var i := |n| - 1;
      var w := Shuffled(v, n[..i]);
      w[n[i] := w[i]][i := w[n[i]]]
  }

  lemma ShuffledNone(v: seq<int>)
    ensures Shuffled(v, []) == v
  {
  }

  lemma ShuffledNext(v: seq<int>, n: seq<int>, pos: int)
    requires Draws(v, n) && |n| <= pos < |v|
    ensures Draws(v, n + [pos])
    ensures var w := Shuffled(v, n); Shuffled(v, n + [pos]) == w[pos := w[|n|]][|n| := w[pos]]
  {
    assert (n + [pos])[..|n|] == n;
  }

  lemma {:induction false} ShuffledSame(v: seq<int>, n: seq<int>)
    requires Draws(v, n)
    ensures multiset(Shuffled(v, n)) == multiset(v)
  {
    if n != [] {
      ShuffledSame(v, n[..|n| - 1]);
    }
  }

  lemma SlotsOf(v: seq<int>, w: seq<int>, i: int)
    requires multiset(w) == multiset(v) && 0 <= i < |w|
    ensures exists j :: 0 <= j < |v| && v[j] == w[i]
  {
    assert w[i] in multiset(v);
  }

  // Slot k of v holds the first of the least recently successful entries.
  ghost predicate FirstOldest(m: map<int, Info>, v: seq<int>, k: int) {
    && 0 <= k < |v| && (forall i :: 0 <= i < |v| ==> v[i] in m)
    && (forall i :: 0 <= i < |v| ==> m[v[k]].lastSuccess <= m[v[i]].lastSuccess)
    && (forall i :: 0 <= i < k ==> m[v[k]].lastSuccess < m[v[i]].lastSuccess)
  }

  lemma OldestNext(m: map<int, Info>, v: seq<int>, x: int, k: int)
    requires x in m && (v == [] || FirstOldest(m, v, k))
    ensures v != [] ==> 0 <= k < |v| && v[k] in m
    ensures FirstOldest(m, v + [x], if v == [] || m[x].lastSuccess < m[v[k]].lastSuccess then |v| else k)
  {
  }

  // ---------- is it the slot of the oldest? ----------

  // One run: n is drawn from bucket v, and slot k ends up with the oldest entry inspected.
  ghost predicate Run(m: map<int, Info>, v: seq<int>, n: seq<int>, k: int) {
    Draws(v, n) && |n| == Inspected(|v|) && FirstOldest(m, Shuffled(v, n)[..|n|], k)
  }

  // Only the times of success in the bucket matter to a run.
  lemma RunSame(m: map<int, Info>, m1: map<int, Info>, v: seq<int>, n: seq<int>, k: int)
    requires Run(m, v, n, k)
    requires forall i :: 0 <= i < |v| ==> v[i] in m && v[i] in m1 && m1[v[i]].lastSuccess == m[v[i]].lastSuccess
    ensures Run(m1, v, n, k)
  {
    hide Shuffled;
    var w := Shuffled(v, n);
    ShuffledSame(v, n);
    forall i | 0 <= i < |n|
      ensures w[..|n|][i] in m1 && m1[w[..|n|][i]].lastSuccess == m[w[..|n|][i]].lastSuccess
    {
      SlotsOf(v, w, i);
    }
  }

  // The tried table after id entered bucket b of vv: at its end while there is room, else in the slot that a run gives.
  ghost predicate Entered(m: map<int, Info>, vv: seq<seq<int>>, ww: seq<seq<int>>, id: int, b: int, n: seq<int>, k: int) {
    && 0 <= b < |vv|
    && if |vv[b]| < TRIED_BUCKET_SIZE then ww == vv[b := vv[b] + [id]]
       else Run(m, vv[b], n, k) && ww == vv[b := Shuffled(vv[b], n)[n[k] := id]]
  }

  // The slot n[k] that SelectTried returns holds that entry.
  ghost predicate Taken(v: seq<int>, n: seq<int>, k: int)
    requires Draws(v, n) && 0 <= k < |n|
  {
    Shuffled(v, n)[n[k]] == Shuffled(v, n)[k]
  }

  // Whatever is drawn, the entry found is the one taken.
  ghost predicate AlwaysTaken(m: map<int, Info>, v: seq<int>) {
    forall n, k :: Run(m, v, n, k) ==> Taken(v, n, k)
  }

  ghost predicate Known(m: map<int, Info>, v: seq<int>) {
    v != [] && NoDup(v) && forall i :: 0 <= i < |v| ==> v[i] in m
  }

  // Two draws, and every later slot drawn in place.
  function InPlaceAfter(a: int, b: int, size: nat): seq<int>
    requires size >= 2
  {
    if size == 2 then [a, b] else if size == 3 then [a, b, 2] else [a, b, 2, 3]
  }

  // Drawing a slot in place changes nothing.
  lemma ShuffledInPlace(v: seq<int>, n: seq<int>)
    requires Draws(v, n) && |n| < |v|
    ensures Draws(v, n + [|n|]) && Shuffled(v, n + [|n|]) == Shuffled(v, n)
  {
    hide Draws, Shuffled;
    ShuffledNext(v, n, |n|);
    var w := Shuffled(v, n);
    assert w[|n| := w[|n|]][|n| := w[|n|]] == w;
  }

  lemma ShuffledPair(v: seq<int>, a: int, b: int)
    requires 0 <= a < |v| && 1 <= b < |v|
    ensures Draws(v, [a, b])
    ensures var w := v[a := v[0]][0 := v[a]]; Shuffled(v, [a, b]) == w[b := w[1]][1 := w[b]]
  {
    hide Shuffled;
    ShuffledNone(v);
    ShuffledNext(v, [], a);
    assert [] + [a] == [a] && [a] + [b] == [a, b];
    ShuffledNext(v, [a], b);
  }

  lemma ShuffledTwo(v: seq<int>, a: int, b: int)
    requires 0 <= a < |v| && 1 <= b < |v|
    ensures var n := InPlaceAfter(a, b, |v|);
            && Draws(v, n) && |n| == Inspected(|v|)
            && var w := v[a := v[0]][0 := v[a]];
               Shuffled(v, n) == w[b := w[1]][1 := w[b]]
  {
    hide Draws, Shuffled;
    ShuffledPair(v, a, b);
    if |v| >= 3 {
      ShuffledInPlace(v, [a, b]);
      assert [a, b] + [2] == [a, b, 2];
    }
    if |v| >= 4 {
      ShuffledInPlace(v, [a, b, 2]);
      assert [a, b, 2] + [3] == [a, b, 2, 3];
    }
  }

  // The last place of a least recently successful entry.
  lemma {:induction false} LastOldest(m: map<int, Info>, v: seq<int>) returns (p: int)
    requires v != [] && forall i :: 0 <= i < |v| ==> v[i] in m
    ensures 0 <= p < |v|
    ensures forall i :: 0 <= i < |v| ==> m[v[p]].lastSuccess <= m[v[i]].lastSuccess
    ensures forall i :: p < i < |v| ==> m[v[p]].lastSuccess < m[v[i]].lastSuccess
  {
    var last := |v| - 1;
    p := last;
    if last > 0 {
      var q := LastOldest(m, v[..last]);
      if m[v[q]].lastSuccess < m[v[last]].lastSuccess {
        p := q;
      }
    }
  }

  // With these two draws slot k, the first or the second, ends up with a least recently successful entry.
  lemma OldestAt(m: map<int, Info>, v: seq<int>, a: int, b: int, k: int)
    requires (forall i :: 0 <= i < |v| ==> v[i] in m) && 0 <= a < |v| && 1 <= b < |v| && 0 <= k <= 1
    requires var w := v[a := v[0]][0 := v[a]];
             var x := w[b := w[1]][1 := w[b]];
             && (forall i :: 0 <= i < |v| ==> m[x[k]].lastSuccess <= m[v[i]].lastSuccess)
             && (k == 1 ==> m[x[1]].lastSuccess < m[x[0]].lastSuccess)
    ensures Run(m, v, InPlaceAfter(a, b, |v|), k)
    ensures var n := InPlaceAfter(a, b, |v|);
            var w := v[a := v[0]][0 := v[a]];
            n[0] == a && n[1] == b && Shuffled(v, n) == w[b := w[1]][1 := w[b]]
  {
    hide Shuffled;
    ShuffledTwo(v, a, b);
    var w := v[a := v[0]][0 := v[a]];
    var x := w[b := w[1]][1 := w[b]];
    forall i | 0 <= i < |v|
      ensures x[i] in m && m[x[k]].lastSuccess <= m[x[i]].lastSuccess
    {
      assert x[i] == v[i] || x[i] == v[0] || x[i] == v[1] || x[i] == v[a] || x[i] == v[b];
    }
    assert x[..|InPlaceAfter(a, b, |v|)|][k] == x[k];
  }

  // A run in which the entry found is not the one taken.
  lemma Miss(m: map<int, Info>, v: seq<int>) returns (n: seq<int>, k: int)
    requires Known(m, v) && (|v| >= 3 || (|v| == 2 && m[v[1]].lastSuccess <= m[v[0]].lastSuccess))
    ensures Run(m, v, n, k) && !Taken(v, n, k)
  {
    hide Shuffled;
    var p := LastOldest(m, v);
    if p > 0 {
      n, k := InPlaceAfter(p, 1, |v|), 0;
      OldestAt(m, v, p, 1, 0);
    } else {
      n, k := InPlaceAfter(2, 2, |v|), 1;
      OldestAt(m, v, 2, 2, 1);
    }
  }

  // The entry found is always the one taken exactly in a bucket of one entry, and of two with the older one first.
  lemma OldestIsTaken(m: map<int, Info>, v: seq<int>)
    requires Known(m, v)
    ensures AlwaysTaken(m, v) <==> |v| == 1 || (|v| == 2 && m[v[0]].lastSuccess < m[v[1]].lastSuccess)
  {
    hide Shuffled;
    if |v| == 1 || (|v| == 2 && m[v[0]].lastSuccess < m[v[1]].lastSuccess) {
      forall n, k | Run(m, v, n, k)
        ensures Taken(v, n, k)
      {
        SmallBucket(m, v, n, k);
      }
    } else {
      var n, k := Miss(m, v);
    }
  }

  lemma SmallBucket(m: map<int, Info>, v: seq<int>, n: seq<int>, k: int)
    requires Known(m, v) && Run(m, v, n, k)
    requires |v| == 1 || (|v| == 2 && m[v[0]].lastSuccess < m[v[1]].lastSuccess)
    ensures n[k] == k
  {
    hide Shuffled;
    if |v| == 2 {
      assert n == InPlaceAfter(n[0], n[1], 2);
      ShuffledTwo(v, n[0], n[1]);
      var w := Shuffled(v, n);
      assert w[..2][0] == w[0] && w[..2][1] == w[1];
    }
  }

  // ---------- does the slot hold an entry as old? ----------

  ghost predicate AsOld(m: map<int, Info>, v: seq<int>, n: seq<int>, k: int)
    requires Run(m, v, n, k)
  {
    var w := Shuffled(v, n);
    w[n[k]] in m && m[w[n[k]]].lastSuccess == m[w[..|n|][k]].lastSuccess
  }

  ghost predicate AlwaysAsOld(m: map<int, Info>, v: seq<int>) {
    forall n, k :: Run(m, v, n, k) ==> AsOld(m, v, n, k)
  }

  ghost predicate OneTime(m: map<int, Info>, v: seq<int>)
    requires forall i :: 0 <= i < |v| ==> v[i] in m
  {
    forall i :: 0 <= i < |v| ==> m[v[i]].lastSuccess == m[v[0]].lastSuccess
  }

  // A run in which the entry taken succeeded later than one that was inspected.
  lemma MissLater(m: map<int, Info>, v: seq<int>) returns (n: seq<int>, k: int)
    requires Known(m, v) && !OneTime(m, v) && (|v| >= 3 || (|v| == 2 && m[v[1]].lastSuccess < m[v[0]].lastSuccess))
    ensures Run(m, v, n, k) && !AsOld(m, v, n, k)
  {
    hide Shuffled;
    var p := LastOldest(m, v);
    var q :| 0 <= q < |v| && m[v[q]].lastSuccess != m[v[0]].lastSuccess;
    var least := m[v[p]].lastSuccess;
    if m[v[0]].lastSuccess > least {
      n, k := InPlaceAfter(p, 1, |v|), 0;
      OldestAt(m, v, p, 1, 0);
    } else if m[v[1]].lastSuccess == least {
      n, k := InPlaceAfter(1, q, |v|), 0;
      OldestAt(m, v, 1, q, 0);
    } else if m[v[2]].lastSuccess == least {
      n, k := InPlaceAfter(2, 2, |v|), 0;
      OldestAt(m, v, 2, 2, 0);
    } else {
      n, k := InPlaceAfter(2, 2, |v|), 1;
      OldestAt(m, v, 2, 2, 1);
    }
  }

  // The entry taken is always one of the least recently successful of those inspected exactly if the whole bucket
  // has one time of success, or has two entries of which the older is first, or has one.
  lemma TakenIsAsOld(m: map<int, Info>, v: seq<int>)
    requires Known(m, v)
    ensures AlwaysAsOld(m, v) <==> OneTime(m, v) || (|v| == 2 && m[v[0]].lastSuccess < m[v[1]].lastSuccess)
  {
    hide Shuffled;
    if OneTime(m, v) {
      forall n, k | Run(m, v, n, k)
        ensures AsOld(m, v, n, k)
      {
        ShuffledSame(v, n);
        SlotsOf(v, Shuffled(v, n), n[k]);
        SlotsOf(v, Shuffled(v, n), k);
      }
    } else if |v| == 2 && m[v[0]].lastSuccess < m[v[1]].lastSuccess {
      forall n, k | Run(m, v, n, k)
        ensures AsOld(m, v, n, k)
      {
        SmallBucket(m, v, n, k);
      }
    } else {
      var n, k := MissLater(m, v);
    }
  }

  // ---------- can the oldest be given up? ----------

  // Slot p lies beyond those shuffled: once drawn its entry comes to a shuffled slot and stays there.
  lemma {:induction false} BeyondStays(v: seq<int>, n: seq<int>, p: int)
    requires Draws(v, n) && |n| <= p < |v|
    ensures p !in n ==> Shuffled(v, n)[p] == v[p]
    ensures p in n ==> exists i :: 0 <= i < |n| && n[i] == p && Shuffled(v, n)[i] == v[p]
  {
    if n != [] {
      var m := |n| - 1;
      BeyondStays(v, n[..m], p);
      var w, w0 := Shuffled(v, n), Shuffled(v, n[..m]);
      if p in n[..m] {
        var i :| 0 <= i < m && n[i] == p && w0[i] == v[p];
        assert w[i] == v[p];
      } else if n[m] == p {
        assert w[m] == v[p];
      }
    }
  }

  lemma {:induction false} ShuffledNoDup(v: seq<int>, n: seq<int>)
    requires NoDup(v) && Draws(v, n)
    ensures NoDup(Shuffled(v, n))
  {
    if n != [] {
      ShuffledNoDup(v, n[..|n| - 1]);
    }
  }

  // Slot p holds the one least recently successful entry.
  ghost predicate OldestIn(m: map<int, Info>, v: seq<int>, p: int)
    requires 0 <= p < |v| && forall i :: 0 <= i < |v| ==> v[i] in m
  {
    forall i :: 0 <= i < |v| && i != p ==> m[v[p]].lastSuccess < m[v[i]].lastSuccess
  }

  // Some draws give up the entry in slot p.
  ghost predicate MayLeave(m: map<int, Info>, v: seq<int>, p: int)
    requires 0 <= p < |v|
  {
    exists n, k :: Run(m, v, n, k) && Shuffled(v, n)[n[k]] == v[p]
  }

  lemma {:induction false} InPlace(v: seq<int>, size: nat) returns (n: seq<int>)
    requires size <= |v|
    ensures |n| == size && Draws(v, n) && Shuffled(v, n) == v
    ensures forall i :: 0 <= i < size ==> n[i] == i
  {
    hide Shuffled;
    if size == 0 {
      n := [];
      ShuffledNone(v);
    } else {
      var n0 := InPlace(v, size - 1);
      n := n0 + [size - 1];
      ShuffledInPlace(v, n0);
    }
  }

  // The least recently successful entry of a bucket can be the one given up exactly if it starts out among the slots
  // shuffled: from any other slot it is never given up, although the draws may find it.
  lemma OldestMayLeave(m: map<int, Info>, v: seq<int>, p: int)
    requires Known(m, v) && 0 <= p < |v| && OldestIn(m, v, p)
    ensures MayLeave(m, v, p) <==> p < TRIED_ENTRIES_INSPECT_ON_EVICT
  {
    hide Shuffled;
    if p < TRIED_ENTRIES_INSPECT_ON_EVICT {
      var n := InPlace(v, Inspected(|v|));
      assert Run(m, v, n, p);
    } else {
      forall n, k | Run(m, v, n, k)
        ensures Shuffled(v, n)[n[k]] != v[p]
      {
        OldestBeyond(m, v, p, n, k);
      }
    }
  }

  lemma OldestBeyond(m: map<int, Info>, v: seq<int>, p: int, n: seq<int>, k: int)
    requires Known(m, v) && TRIED_ENTRIES_INSPECT_ON_EVICT <= p < |v| && OldestIn(m, v, p) && Run(m, v, n, k)
    ensures Shuffled(v, n)[n[k]] != v[p]
  {
    hide Shuffled;
    var w := Shuffled(v, n);
    BeyondStays(v, n, p);
    ShuffledNoDup(v, n);
    if p in n {
      // It was drawn, so it is the one found, and stands in a slot before p, which is the one returned.
      var i :| 0 <= i < |n| && n[i] == p && w[i] == v[p];
      FoundLeast(m, v, p, n, k, i);
    }
  }

  lemma FoundLeast(m: map<int, Info>, v: seq<int>, p: int, n: seq<int>, k: int, i: int)
    requires Known(m, v) && 0 <= p < |v| && OldestIn(m, v, p) && Run(m, v, n, k)
    requires 0 <= i < |n| && Shuffled(v, n)[i] == v[p]
    ensures k == i
  {
    hide Shuffled;
    var w := Shuffled(v, n);
    ShuffledSame(v, n);
    SlotsOf(v, w, k);
    ShuffledNoDup(v, n);
    assert w[..|n|][i] == w[i] && w[..|n|][k] == w[k];
  }

  // A full bucket, as SelectTried always meets it: with these draws the entry that succeeded least recently of all
  // is found and the one that succeeded most recently of all is taken.
  lemma OldestIsMissed(i0: Info)
    ensures var v := seq(TRIED_BUCKET_SIZE, i => i);
            var m := map i | i in v :: i0.(lastSuccess := TRIED_BUCKET_SIZE - i);
            var n := [63, 1, 2, 3];
            && Known(m, v) && Run(m, v, n, 0)
            && Shuffled(v, n)[0] == 63 && Shuffled(v, n)[n[0]] == 0
            && forall i :: 0 < i < |v| ==> m[v[63]].lastSuccess <= m[v[i]].lastSuccess < m[v[0]].lastSuccess
  {
    hide Shuffled;
    var v: seq<int> := seq(TRIED_BUCKET_SIZE, i => i);
    ShuffledTwo(v, 63, 1);
  }
}
