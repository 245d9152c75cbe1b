/** Entries of the minimum-cost search's priority queue (src/PoidsSource.java),
    and the queue's extraction of a least entry. */
module PoidsSources {

  /** A queue entry: a tentative cost (`poids`) and the id of the artist it is
      for, in the constructor's argument order. */
  datatype PoidsSource = PoidsSource(poids: real, artist: int)
  {
    /** Java `compareTo`, that is `Double.compare` of the two costs: -1, 0 or 1
        as this cost is below, equal to or above the other's; ids play no part. */
    function CompareTo(o: PoidsSource): (r: int)
      ensures r < 0 <==> poids < o.poids
      ensures r == 0 <==> poids == o.poids
      ensures r > 0 <==> poids > o.poids
      ensures -1 <= r <= 1
    {
      if poids < o.poids then -1 else if poids > o.poids then 1 else 0
    }
  }

  /** The sign of a.CompareTo(b) is the opposite of that of b.CompareTo(a). */
  lemma CompareToAntisymmetric(a: PoidsSource, b: PoidsSource)
    ensures a.CompareTo(b) == -b.CompareTo(a)
  {
  }

  /** CompareTo orders entries transitively. */
  lemma CompareToTransitive(a: PoidsSource, b: PoidsSource, c: PoidsSource)
    ensures a.CompareTo(b) <= 0 && b.CompareTo(c) <= 0 ==> a.CompareTo(c) <= 0
  {
  }

  /** Where `poll` takes its entry from: the first of the entries that no
      other entry compares below, found by scanning left to right and keeping
      the current candidate unless a later entry compares below it. */
  function LeastIndex(q: seq<PoidsSource>): (m: nat)
    requires |q| > 0
    ensures m < |q|
    ensures forall i :: 0 <= i < |q| ==> q[m].CompareTo(q[i]) <= 0
    ensures forall i :: 0 <= i < m ==> q[i].CompareTo(q[m]) > 0
    decreases |q|
  {
    if |q| == 1 then 0
    else
      var m := LeastIndex(q[..|q| - 1]);
      assert forall i :: 0 <= i < |q| - 1 ==> q[..|q| - 1][i] == q[i];
      if q[|q| - 1].CompareTo(q[m]) < 0 then |q| - 1 else m
  }

  /** The entry `poll` returns and the queue it leaves. */
  function PollOf(q: seq<PoidsSource>): (r: (PoidsSource, seq<PoidsSource>))
    requires |q| > 0
    ensures r.0 in q && forall e :: e in q ==> r.0.CompareTo(e) <= 0
    ensures multiset(r.1) + multiset{r.0} == multiset(q)
    ensures |r.1| == |q| - 1
    ensures forall e :: e in r.1 ==> e in q
    ensures forall e :: e in q && e != r.0 ==> e in r.1
  {
    var m := LeastIndex(q);
    var head, rest := q[m], q[..m] + q[m + 1..];
    assert q == q[..m] + [head] + q[m + 1..];
    assert multiset(q) == multiset(q[..m]) + multiset{head} + multiset(q[m + 1..]);
    assert forall e :: e in q && e != head ==> e in rest by {
      forall e | e in q && e != head ensures e in rest {
        assert multiset(q)[e] > 0;
      }
    }
    assert forall e :: e in rest ==> e in q by {
      forall e | e in rest ensures e in q {
        assert multiset(rest)[e] > 0;
      }
    }
    (head, rest)
  }

  /** The scan of `poll` for its entry. */
  method IndexOfLeast(q: seq<PoidsSource>) returns (m: nat)
    requires |q| > 0
    ensures m == LeastIndex(q)
  {
    m := 0;
    var i := 1;
    while i < |q|
      invariant 0 < i <= |q|
      invariant m == LeastIndex(q[..i])
    {
      assert q[..i + 1][..i] == q[..i];
      if q[i].CompareTo(q[m]) < 0 {
        m := i;
      }
      i := i + 1;
    }
    assert q[..|q|] == q;
  }

  /** `poll` on the queue: removes and returns the entry PollOf names. */
  method Poll(q: seq<PoidsSource>) returns (head: PoidsSource, rest: seq<PoidsSource>)
    requires |q| > 0
    ensures (head, rest) == PollOf(q)
  {
    var m := IndexOfLeast(q);
    head := q[m];
    rest := q[..m] + q[m + 1..];
  }
}
