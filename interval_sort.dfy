/**
 * The ordering of the encode tables: the discovered intervals are sorted in
 * place by decreasing length, through the `Less` and `Swap` operations of
 * the `byDecreasingLength` sort interface. The sort is not stable, so
 * nothing is promised about the order of intervals of equal length.
 */
module IntervalSort {
  import opened Intervals

  /** The `Less` of the sort interface: x goes before y when it is strictly longer. */
  predicate Longer(x: Interval, y: Interval) {
    x.Len() > y.Len()
  }

  /**
   * `Longer` is a strict weak order, as the sort interface demands of `Less`:
   * irreflexive, transitive, and with transitive incomparability.
   */
  lemma LongerIsStrictWeakOrder(x: Interval, y: Interval, z: Interval)
    ensures !Longer(x, x)
    ensures Longer(x, y) && Longer(y, z) ==> Longer(x, z)
    ensures !Longer(x, y) && !Longer(y, x) && !Longer(y, z) && !Longer(z, y) ==> !Longer(x, z) && !Longer(z, x)
  {
  }

  /** No interval is followed by a longer one. */
  ghost predicate NonIncreasingLength(ivs: seq<Interval>) {
    forall i, j :: 0 <= i < j < |ivs| ==> ivs[i].Len() >= ivs[j].Len()
  }

  /** The `Swap` of the sort interface. */
  method Swap(a: array<Interval>, i: int, j: int)
    requires 0 <= i < a.Length && 0 <= j < a.Length
    modifies a
    ensures a[i] == old(a[j]) && a[j] == old(a[i])
    ensures forall m :: 0 <= m < a.Length && m != i && m != j ==> a[m] == old(a[m])
    ensures multiset(a[..]) == old(multiset(a[..]))
  {
    a[i], a[j] := a[j], a[i];
  }

  /**
   * Sorts a by decreasing length, by insertion: each interval in turn is
   * swapped towards the front while it is longer than its predecessor.
   */
  method SortByDecreasingLength(a: array<Interval>)
    modifies a
    ensures NonIncreasingLength(a[..])
    ensures multiset(a[..]) == old(multiset(a[..]))
  {
    if a.Length < 2 {
      return;
    }
    for i := 1 to a.Length
      invariant NonIncreasingLength(a[..i])
      invariant multiset(a[..]) == old(multiset(a[..]))
    {
      Insert(a, i);
    }
    assert a[..a.Length] == a[..];
  }

  /** One insertion step: a[..i] is sorted, and a[i] is moved into place among it. */
  method Insert(a: array<Interval>, i: int)
    requires 0 < i < a.Length && NonIncreasingLength(a[..i])
    modifies a
    ensures NonIncreasingLength(a[..i + 1])
    ensures a[i + 1..] == old(a[i + 1..])
    ensures multiset(a[..]) == old(multiset(a[..]))
  {
    var j := i;
    while j > 0 && Longer(a[j], a[j - 1])
      invariant 0 <= j <= i
      invariant forall p, q :: 0 <= p < q <= i && p != j && q != j ==> a[p].Len() >= a[q].Len()
      invariant forall q :: j < q <= i ==> a[j].Len() > a[q].Len()
      invariant a[i + 1..] == old(a[i + 1..])
      invariant multiset(a[..]) == old(multiset(a[..]))
    {
      Swap(a, j - 1, j);
      j := j - 1;
    }
  }
}
