/**
 * The interval pass of the table generator: one left-to-right scan of the
 * encode accumulator cuts it into half-open ranges [low, high) of code
 * points. A run of at least `separation` zero slots between two non-zero
 * slots starts a new range; shorter runs are folded into the current one.
 */
module Intervals {

  /** A half-open range [low, high) of code points. */
  datatype Interval = Interval(low: int, high: int) {
    /** The number of code points in the range. */
    function Len(): int {
      high - low
    }

    predicate Contains(i: int) {
      low <= i < high
    }
  }

  /** Every slot of s in [a, b) is 0. */
  ghost predicate ZeroRun(s: seq<int>, a: int, b: int) {
    0 <= a <= b <= |s| && forall t :: a <= t < b ==> s[t] == 0
  }

  /** s[i] and s[j] are non-zero and every slot between them is zero. */
  ghost predicate Neighbours(s: seq<int>, i: int, j: int) {
    0 <= i < j < |s| && s[i] != 0 && s[j] != 0 && ZeroRun(s, i + 1, j)
  }

  /**
   * An interval the scan can emit for s: it starts and ends on non-zero slots
   * and every run of zeros between two of its non-zero slots is shorter than
   * the separation.
   */
  ghost predicate Dense(s: seq<int>, sep: int, iv: Interval) {
    && 0 <= iv.low < iv.high <= |s|
    && s[iv.low] != 0 && s[iv.high - 1] != 0
    && forall i, j :: iv.low <= i && j < iv.high && Neighbours(s, i, j) ==> j - i - 1 < sep
  }

  /** Two consecutive intervals: at least the separation apart, with only zeros between them. */
  ghost predicate Separated(s: seq<int>, sep: int, a: Interval, b: Interval) {
    a.high + sep <= b.low && ZeroRun(s, a.high, b.low)
  }

  /**
   * ivs is the list of intervals of the prefix s[..end], in discovery order:
   * each is dense, consecutive ones are separated, and the slots before the
   * first one and after the last one are zero.
   */
  ghost predicate IsSplitUpTo(s: seq<int>, end: int, sep: int, ivs: seq<Interval>) {
    && 0 <= end <= |s|
    && (forall k :: 0 <= k < |ivs| ==> Dense(s, sep, ivs[k]) && ivs[k].high <= end)
    && (forall k :: 0 <= k < |ivs| - 1 ==> Separated(s, sep, ivs[k], ivs[k + 1]))
    && (|ivs| == 0 ==> ZeroRun(s, 0, end))
    && (|ivs| > 0 ==> ZeroRun(s, 0, ivs[0].low) && ZeroRun(s, ivs[|ivs| - 1].high, end))
  }

  /** ivs is the list of intervals of the whole of s, in discovery order. */
  ghost predicate IsSplit(s: seq<int>, sep: int, ivs: seq<Interval>) {
    IsSplitUpTo(s, |s|, sep, ivs)
  }

  /**
   * The interval scan over the encode accumulator. `low` and `high` start at
   * -1 (no interval open); a non-zero slot opens an interval, extends the
   * open one, or, when at least `separation` zero slots precede it, closes
   * the open interval and opens a new one.
   */
  method Scan(reverse: array<int>, separation: int) returns (intervals: seq<Interval>)
    requires separation > 0
    ensures IsSplit(reverse[..], separation, intervals)
  {
    ghost var s := reverse[..];
    intervals := [];
    var low, high := -1, -1;
    for i := 0 to reverse.Length
      invariant high < 0 ==> low < 0 && intervals == [] && ZeroRun(s, 0, i)
      invariant high >= 0 ==> 0 <= low && IsSplitUpTo(s, i, separation, intervals + [Interval(low, high)])
    {
      if reverse[i] == 0 {
        if high >= 0 {
          ExtendZero(s, i, separation, intervals + [Interval(low, high)]);
        }
        continue;
      }
      if low < 0 {
        low := i;
        OpenFirst(s, i, separation);
      } else if i - high >= separation {
        // Always true here: high is set whenever low is.
        if high >= 0 {
          CloseAndOpen(s, i, separation, intervals, Interval(low, high));
          intervals := intervals + [Interval(low, high)];
        }
        low := i;
      } else {
        Extend(s, i, separation, intervals, Interval(low, high));
      }
      high := i + 1;
    }
    if high >= 0 {
      intervals := intervals + [Interval(low, high)];
    }
  }

  /** A zero slot lengthens the zero run after the last interval. */
  lemma ExtendZero(s: seq<int>, i: int, sep: int, ivs: seq<Interval>)
    requires 0 <= i < |s| && s[i] == 0
    requires IsSplitUpTo(s, i, sep, ivs)
    ensures IsSplitUpTo(s, i + 1, sep, ivs)
  {
  }

  /** The first non-zero slot opens the first interval. */
  lemma OpenFirst(s: seq<int>, i: int, sep: int)
    requires 0 <= i < |s| && s[i] != 0
    requires ZeroRun(s, 0, i)
    ensures IsSplitUpTo(s, i + 1, sep, [Interval(i, i + 1)])
  {
  }

  /** A non-zero slot at least the separation after the open interval starts a new one. */
  lemma CloseAndOpen(s: seq<int>, i: int, sep: int, ivs: seq<Interval>, open: Interval)
    requires 0 <= i < |s| && s[i] != 0
    requires IsSplitUpTo(s, i, sep, ivs + [open])
    requires i - open.high >= sep
    ensures IsSplitUpTo(s, i + 1, sep, ivs + [open] + [Interval(i, i + 1)])
  {
  }

  /** A non-zero slot less than the separation after the open interval extends it. */
  lemma Extend(s: seq<int>, i: int, sep: int, ivs: seq<Interval>, open: Interval)
    requires 0 <= i < |s| && s[i] != 0
    requires IsSplitUpTo(s, i, sep, ivs + [open])
    requires i - open.high < sep
    ensures IsSplitUpTo(s, i + 1, sep, ivs + [Interval(open.low, i + 1)])
  {
    var before := ivs + [open];
    var after := ivs + [Interval(open.low, i + 1)];
    assert before[|before| - 1] == open;
    assert ZeroRun(s, open.high, i);
    DenseGrow(s, i, sep, open);
    forall k | 0 <= k < |after|
      ensures Dense(s, sep, after[k]) && after[k].high <= i + 1
    {
      if k < |after| - 1 {
        assert after[k] == before[k];
      }
    }
    forall k | 0 <= k < |after| - 1
      ensures Separated(s, sep, after[k], after[k + 1])
    {
      assert after[k] == before[k];
      if k < |after| - 2 {
        assert after[k + 1] == before[k + 1];
      }
    }
  }

  /** Extending a dense interval over a zero run shorter than the separation keeps it dense. */
  lemma DenseGrow(s: seq<int>, i: int, sep: int, open: Interval)
    requires 0 <= i < |s| && s[i] != 0
    requires Dense(s, sep, open) && open.high <= i && ZeroRun(s, open.high, i)
    requires i - open.high < sep
    ensures Dense(s, sep, Interval(open.low, i + 1))
  {
  }

  /** Intervals in discovery order are ascending and at least the separation apart. */
  lemma {:induction false} Ascending(s: seq<int>, sep: int, ivs: seq<Interval>, k1: int, k2: int)
    requires sep > 0 && IsSplit(s, sep, ivs)
    requires 0 <= k1 < k2 < |ivs|
    ensures ivs[k1].high + sep <= ivs[k2].low
    decreases k2 - k1
  {
    assert Separated(s, sep, ivs[k1], ivs[k1 + 1]);
    if k1 + 1 < k2 {
      Ascending(s, sep, ivs, k1 + 1, k2);
      assert Dense(s, sep, ivs[k1 + 1]);
    }
  }

  /** Every non-zero slot of s lies in exactly one interval of its split. */
  lemma CoveredExactlyOnce(s: seq<int>, sep: int, ivs: seq<Interval>, i: int)
    requires sep > 0 && IsSplit(s, sep, ivs)
    requires 0 <= i < |s| && s[i] != 0
    ensures exists k :: 0 <= k < |ivs| && ivs[k].Contains(i)
                        && forall k' :: 0 <= k' < |ivs| && ivs[k'].Contains(i) ==> k' == k
  {
    assert |ivs| > 0 && ivs[0].low <= i;
    var k := Locate(s, sep, ivs, i, 0);
    forall k1, k2 | 0 <= k1 < k2 < |ivs|
      ensures ivs[k1].high + sep <= ivs[k2].low
    {
      Ascending(s, sep, ivs, k1, k2);
    }
  }

  /** Finds the interval holding the non-zero slot i, searching from the k-th on. */
  lemma {:induction false} Locate(s: seq<int>, sep: int, ivs: seq<Interval>, i: int, k: int) returns (found: int)
    requires sep > 0 && IsSplit(s, sep, ivs)
    requires 0 <= i < |s| && s[i] != 0
    requires 0 <= k < |ivs| && ivs[k].low <= i
    ensures k <= found < |ivs| && ivs[found].Contains(i)
    decreases |ivs| - k
  {
    if i < ivs[k].high {
      found := k;
    } else {
      assert k + 1 < |ivs|;
      assert Separated(s, sep, ivs[k], ivs[k + 1]);
      found := Locate(s, sep, ivs, i, k + 1);
    }
  }

  /** The split is empty exactly when every slot is zero. */
  lemma NoIntervalsIffAllZero(s: seq<int>, sep: int, ivs: seq<Interval>)
    requires IsSplit(s, sep, ivs)
    ensures ivs == [] <==> ZeroRun(s, 0, |s|)
  {
  }

  /**
   * The conditions of IsSplit determine the list: two splits of the same
   * slots with the same separation are equal.
   */
  lemma SplitUnique(s: seq<int>, sep: int, a: seq<Interval>, b: seq<Interval>)
    requires sep > 0 && IsSplit(s, sep, a) && IsSplit(s, sep, b)
    ensures a == b
  {
    var n := if |a| <= |b| then |a| else |b|;
    AgreeUpTo(s, sep, a, b, n);
    if n == |b| {
      NoneAfter(s, sep, b, a, n);
    } else {
      NoneAfter(s, sep, a, b, n);
    }
  }

  /** Two splits agree on their first n intervals. */
  lemma {:induction false} AgreeUpTo(s: seq<int>, sep: int, a: seq<Interval>, b: seq<Interval>, n: int)
    requires sep > 0 && IsSplit(s, sep, a) && IsSplit(s, sep, b)
    requires 0 <= n <= |a| && n <= |b|
    ensures forall k :: 0 <= k < n ==> a[k] == b[k]
  {
    if n > 0 {
      AgreeUpTo(s, sep, a, b, n - 1);
      SameAt(s, sep, a, b, n - 1);
    }
  }

  /** When one split ends after n intervals, another split that agrees on them has no (n+1)-th. */
  lemma NoneAfter(s: seq<int>, sep: int, shorter: seq<Interval>, longer: seq<Interval>, n: int)
    requires sep > 0 && IsSplit(s, sep, shorter) && IsSplit(s, sep, longer)
    requires n == |shorter| <= |longer|
    requires forall k :: 0 <= k < n ==> shorter[k] == longer[k]
    ensures n == |longer|
  {
    if n == 0 {
      NoIntervalsIffAllZero(s, sep, shorter);
      NoIntervalsIffAllZero(s, sep, longer);
    } else {
      var last := |longer| - 1;
      assert Dense(s, sep, longer[last]);
      NonZeroBeforeEnd(s, sep, shorter, longer[last].low);
      assert shorter[n - 1] == longer[n - 1];
      if n - 1 < last {
        Ascending(s, sep, longer, n - 1, last);
      }
    }
  }

  /** Every non-zero slot lies before the end of the last interval. */
  lemma NonZeroBeforeEnd(s: seq<int>, sep: int, ivs: seq<Interval>, t: int)
    requires IsSplit(s, sep, ivs)
    requires 0 <= t < |s| && s[t] != 0
    ensures |ivs| > 0 && t < ivs[|ivs| - 1].high
  {
  }

  /** Two splits that agree before position k agree at k. */
  lemma SameAt(s: seq<int>, sep: int, a: seq<Interval>, b: seq<Interval>, k: int)
    requires sep > 0 && IsSplit(s, sep, a) && IsSplit(s, sep, b)
    requires 0 <= k < |a| && k < |b|
    requires k > 0 ==> a[k - 1] == b[k - 1]
    ensures a[k] == b[k]
  {
    SameLow(s, sep, a, b, k);
    HighAtMost(s, sep, a, b, k);
    HighAtMost(s, sep, b, a, k);
  }

  /** Two splits that agree before position k start their k-th intervals at the same slot. */
  lemma SameLow(s: seq<int>, sep: int, a: seq<Interval>, b: seq<Interval>, k: int)
    requires sep > 0 && IsSplit(s, sep, a) && IsSplit(s, sep, b)
    requires 0 <= k < |a| && k < |b|
    requires k > 0 ==> a[k - 1] == b[k - 1]
    ensures a[k].low == b[k].low
  {
  }

  /** With equal lows, the k-th interval of b ends no later than that of a. */
  lemma HighAtMost(s: seq<int>, sep: int, a: seq<Interval>, b: seq<Interval>, k: int)
    requires sep > 0 && IsSplit(s, sep, a) && IsSplit(s, sep, b)
    requires 0 <= k < |a| && k < |b| && a[k].low == b[k].low
    ensures b[k].high <= a[k].high
  {
    var h := b[k].high - 1;
    assert Dense(s, sep, a[k]) && Dense(s, sep, b[k]);
    assert s[h] != 0;
    if k + 1 < |a| {
      assert Separated(s, sep, a[k], a[k + 1]);
      var p, q := a[k].high - 1, a[k + 1].low;
      assert Dense(s, sep, a[k + 1]) && s[q] != 0 && s[p] != 0;
      assert h >= a[k].high ==> h >= q;
      assert h >= a[k].high ==> b[k].low <= p && q < b[k].high && Neighbours(s, p, q) && q - p - 1 >= sep;
    }
  }
}
