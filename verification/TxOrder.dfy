/** CTransaction::IsNewerThan: which of two transactions that spend the same outputs replaces the other. */
module TxOrder {

  // An outpoint is a number.
  datatype TxIn = TxIn(prevout: nat, nSequence: nat)

  const MAX_SEQUENCE := 0xFFFF_FFFF

  ghost predicate InRange(vin: seq<TxIn>) {
    forall i :: 0 <= i < |vin| ==> vin[i].nSequence <= MAX_SEQUENCE
  }

  ghost predicate SameInputs(a: seq<TxIn>, b: seq<TxIn>) {
    |a| == |b| && forall i :: 0 <= i < |a| ==> a[i].prevout == b[i].prevout
  }

  predicate Differ(a: seq<TxIn>, b: seq<TxIn>, i: nat)
    requires i < |a| == |b|
  {
    a[i].nSequence != b[i].nSequence
  }

  // The least sequence number of a at the inputs where a and b differ; above every sequence number if there is none.
  ghost function Least(a: seq<TxIn>, b: seq<TxIn>): (m: nat)
    requires |a| == |b|
    ensures m <= MAX_SEQUENCE + 1
    ensures forall i: nat :: i < |a| && Differ(a, b, i) ==> m <= a[i].nSequence
    ensures m == MAX_SEQUENCE + 1 || exists i: nat :: i < |a| && Differ(a, b, i) && m == a[i].nSequence
  {
    if a == [] then MAX_SEQUENCE + 1
    else
      var n := |a| - 1;
      var a', b' := a[..n], b[..n];
      assert forall i: nat :: i < n ==> Differ(a, b, i) == Differ(a', b', i);
      var m := Least(a', b');
      if Differ(a, b, n) && a[n].nSequence < m then a[n].nSequence else m
  }

  // a replaces b: it has raised the lowest sequence number among those that changed.
  ghost predicate Newer(a: seq<TxIn>, b: seq<TxIn>) {
    SameInputs(a, b) && Least(b, a) < Least(a, b)
  }

  lemma LeastNext(a: seq<TxIn>, b: seq<TxIn>, n: nat)
    requires n < |a| == |b|
    ensures Least(a[..n + 1], b[..n + 1])
            == if Differ(a, b, n) && a[n].nSequence < Least(a[..n], b[..n]) then a[n].nSequence else Least(a[..n], b[..n])
  {
    assert a[..n + 1][..n] == a[..n] && b[..n + 1][..n] == b[..n];
  }

  lemma LeastNothing()
    ensures Least([], []) == MAX_SEQUENCE + 1
  {
  }

  // What the loop knows of the least sequence numbers n and o so far.
  ghost predicate Tracks(fNewer: bool, nLowest: nat, n: nat, o: nat) {
    && (fNewer <==> o < n)
    && nLowest <= MAX_SEQUENCE && nLowest <= n && nLowest <= o
    && (nLowest == n || nLowest == o || (nLowest == MAX_SEQUENCE && o >= n))
  }

  method IsNewerThan(vin: seq<TxIn>, old_vin: seq<TxIn>) returns (fNewer: bool)
    requires InRange(vin) && InRange(old_vin)
    ensures fNewer <==> Newer(vin, old_vin)
  {
    hide Least;
    if |vin| != |old_vin| {
      return false;
    }
    for i := 0 to |vin|
      invariant forall k :: 0 <= k < i ==> vin[k].prevout == old_vin[k].prevout
    {
      if vin[i].prevout != old_vin[i].prevout {
        return false;
      }
    }
    LeastNothing();
    fNewer := false;
    var nLowest: nat := MAX_SEQUENCE;
    for i := 0 to |vin|
      invariant Tracks(fNewer, nLowest, Least(vin[..i], old_vin[..i]), Least(old_vin[..i], vin[..i]))
    {
      LeastNext(vin, old_vin, i);
      LeastNext(old_vin, vin, i);
      if vin[i].nSequence != old_vin[i].nSequence {
        if vin[i].nSequence <= nLowest {
          fNewer := false;
          nLowest := vin[i].nSequence;
        }
        if old_vin[i].nSequence < nLowest {
          fNewer := true;
          nLowest := old_vin[i].nSequence;
        }
      }
    }
    assert vin[..|vin|] == vin && old_vin[..|vin|] == old_vin;
  }

  // Newer is a strict partial order: no transaction replaces itself, no two replace each other, ...
  lemma NewerStrict(a: seq<TxIn>, b: seq<TxIn>)
    ensures !Newer(a, a) && !(Newer(a, b) && Newer(b, a))
  {
  }

  // Where a differs from c it differs from b, or b differs from c.
  lemma AboveBoth(a: seq<TxIn>, b: seq<TxIn>, c: seq<TxIn>, r: nat)
    requires |a| == |b| == |c| && r < Least(a, b) && r < Least(b, c)
    ensures r < Least(a, c)
  {
    hide Least;
    forall i: nat | i < |a| && Differ(a, c, i)
      ensures a[i].nSequence > r
    {
      assert Differ(a, b, i) || Differ(b, c, i);
    }
  }

  // ... and replacing is transitive.
  lemma NewerTransitive(a: seq<TxIn>, b: seq<TxIn>, c: seq<TxIn>)
    requires InRange(a) && InRange(b) && InRange(c) && Newer(a, b) && Newer(b, c)
    ensures Newer(a, c)
  {
    hide Least;
    var p, q := Least(b, a), Least(c, b);
    if q <= p {
      var j: nat :| j < |c| && Differ(c, b, j) && q == c[j].nSequence;
      AboveBoth(a, b, c, q);
      assert Differ(b, c, j);
      assert Differ(c, a, j);
    } else {
      var j: nat :| j < |b| && Differ(b, a, j) && p == b[j].nSequence;
      AboveBoth(a, b, c, p);
      assert !Differ(b, c, j);
      assert Differ(c, a, j);
    }
  }
}
