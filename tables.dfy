/**
 * The logical content of the generated tables: the sparse decode table
 * (pointer to code point), and one offset-indexed sparse encode table per
 * interval, in order of decreasing interval length. A slot that a table does
 * not list means "unmapped", which is 0 in the dense accumulators.
 */
module Tables {
  import opened Wrappers
  import opened Big5Pointer
  import opened MappingIngestor
  import opened Intervals
  import opened IntervalSort

  /** The separation the generator uses: 1024 zero slots split the encode table. */
  const Separation := 1024

  /** An encode table for the code points in [low, high): offset y - low to packed bytes. */
  datatype EncodeTable = EncodeTable(low: int, high: int, entries: map<int, int>)

  /** All generated tables. */
  datatype Compiled = Compiled(decode: map<int, int>, encode: seq<EncodeTable>)

  /** m lists, at offset j - low, exactly the non-zero slots j of s in [low, high). */
  ghost predicate SparseImage(s: seq<int>, low: int, high: int, m: map<int, int>) {
    && 0 <= low <= high <= |s|
    && (forall j :: low <= j < high ==> (s[j] != 0 <==> j - low in m))
    && (forall off :: off in m ==> 0 <= off < high - low && m[off] == s[low + off])
  }

  /** The bounds of each encode table, as intervals. */
  function Bounds(tables: seq<EncodeTable>): (ivs: seq<Interval>)
    ensures |ivs| == |tables|
    ensures forall k :: 0 <= k < |tables| ==> ivs[k] == Interval(tables[k].low, tables[k].high)
  {
    seq(|tables|, k requires 0 <= k < |tables| => Interval(tables[k].low, tables[k].high))
  }

  /** The value a consumer reads from a sparse table at offset off: an absent entry is 0. */
  function Entry(m: map<int, int>, off: int): int {
    if off in m then m[off] else 0
  }

  /**
   * Encoding y with the generated tables: the first table whose range holds y
   * gives the entry at y - low; y outside every range is unmapped.
   */
  function EncodeLookup(tables: seq<EncodeTable>, y: int): int {
    if tables == [] then 0
    else if tables[0].low <= y < tables[0].high then Entry(tables[0].entries, y - tables[0].low)
    else EncodeLookup(tables[1..], y)
  }

  /** The offsets 0 .. n - 1 of a table for an interval of length n. */
  function Offsets(n: nat): (r: set<int>)
    ensures forall off :: off in r <==> 0 <= off < n
  {
    if n == 0 then {} else Offsets(n - 1) + {n - 1}
  }

  /** A set of offsets below n has at most n members. */
  lemma {:induction false} OffsetsBound(a: set<int>, n: nat)
    requires a <= Offsets(n)
    ensures |a| <= n
  {
    if n > 0 {
      var rest := a - {n - 1};
      OffsetsBound(rest, n - 1);
      if n - 1 in a {
        assert a == rest + {n - 1};
      } else {
        assert a == rest;
      }
    }
  }

  /** A table emitted for an interval lists at most Len() entries, all at offsets below Len(). */
  lemma TableSizeAtMostLen(s: seq<int>, low: int, high: int, m: map<int, int>)
    requires SparseImage(s, low, high, m)
    ensures forall off :: off in m ==> 0 <= off < Interval(low, high).Len()
    ensures |m| <= Interval(low, high).Len()
  {
    var n := high - low;
    assert m.Keys <= Offsets(n);
    OffsetsBound(m.Keys, n);
  }

  /**
   * The emission loop for one table: walks the slots of a in [low, high) and
   * lists each non-zero one at its offset from low.
   */
  method NonZeroEntries(a: array<int>, low: int, high: int) returns (m: map<int, int>)
    requires 0 <= low <= high <= a.Length
    ensures SparseImage(a[..], low, high, m)
  {
    m := map[];
    for j := low to high
      invariant forall t :: low <= t < j ==> (a[t] != 0 <==> t - low in m)
      invariant forall off :: off in m ==> 0 <= off < j - low && m[off] == a[low + off]
    {
      var x := a[j];
      if x == 0 {
        continue;
      }
      m := m[j - low := x];
    }
  }

  /** A sparse table read with the absent-means-zero rule gives back the dense slots. */
  lemma SparseLookup(s: seq<int>, low: int, high: int, m: map<int, int>, j: int)
    requires SparseImage(s, low, high, m)
    requires low <= j < high
    ensures Entry(m, j - low) == s[j]
  {
  }

  /**
   * Looking y up in tables that are each a sparse image of s gives s[y] when
   * some table's range holds y, and 0 otherwise.
   */
  lemma {:induction false} EncodeLookupImage(s: seq<int>, tables: seq<EncodeTable>, y: int)
    requires forall k :: 0 <= k < |tables| ==> SparseImage(s, tables[k].low, tables[k].high, tables[k].entries)
    requires 0 <= y < |s|
    ensures EncodeLookup(tables, y) == if InSomeRange(tables, y) then s[y] else 0
  {
    if tables != [] {
      var first := tables[0];
      if first.low <= y < first.high {
        assert SparseImage(s, first.low, first.high, first.entries);
        SparseLookup(s, first.low, first.high, first.entries, y);
      } else {
        var rest := tables[1..];
        forall k | 0 <= k < |rest|
          ensures SparseImage(s, rest[k].low, rest[k].high, rest[k].entries)
        {
          assert rest[k] == tables[k + 1];
        }
        EncodeLookupImage(s, rest, y);
        InSomeRangeTail(tables, y);
      }
    }
  }

  /** Some table's range holds y. */
  ghost predicate InSomeRange(tables: seq<EncodeTable>, y: int) {
    exists k :: 0 <= k < |tables| && tables[k].low <= y < tables[k].high
  }

  lemma InSomeRangeTail(tables: seq<EncodeTable>, y: int)
    requires tables != [] && !(tables[0].low <= y < tables[0].high)
    ensures InSomeRange(tables, y) <==> InSomeRange(tables[1..], y)
  {
  }

  /**
   * Tables whose bounds are the split of s, in any order, and whose entries
   * are sparse images of s, encode every slot of s correctly.
   */
  lemma EncodeTablesExact(s: seq<int>, sep: int, ivs: seq<Interval>, tables: seq<EncodeTable>, y: int)
    requires sep > 0 && IsSplit(s, sep, ivs) && multiset(ivs) == multiset(Bounds(tables))
    requires forall k :: 0 <= k < |tables| ==> SparseImage(s, tables[k].low, tables[k].high, tables[k].entries)
    requires 0 <= y < |s|
    ensures EncodeLookup(tables, y) == s[y]
  {
    EncodeLookupImage(s, tables, y);
    if s[y] != 0 {
      CoveredExactlyOnce(s, sep, ivs, y);
      var k :| 0 <= k < |ivs| && ivs[k].Contains(y);
      assert ivs[k] in multiset(Bounds(tables));
      var t :| 0 <= t < |tables| && Bounds(tables)[t] == ivs[k];
      assert tables[t].low <= y < tables[t].high;
      assert InSomeRange(tables, y);
    }
  }

  /** An interval of a permutation of a split of s is a range of s that starts and ends on a non-zero slot. */
  lemma PermutedBounds(s: seq<int>, sep: int, ivs: seq<Interval>, sorted: seq<Interval>, k: int)
    requires IsSplit(s, sep, ivs) && multiset(ivs) == multiset(sorted)
    requires 0 <= k < |sorted|
    ensures 0 <= sorted[k].low < sorted[k].high <= |s|
    ensures s[sorted[k].low] != 0 && s[sorted[k].high - 1] != 0
  {
    assert sorted[k] in multiset(ivs);
    var i :| 0 <= i < |ivs| && ivs[i] == sorted[k];
    assert Dense(s, sep, ivs[i]);
  }

  /** The emission loop over the sorted intervals: one encode table per interval, in order. */
  method EmitEncodeTables(reverse: array<int>, sorted: array<Interval>) returns (encode: seq<EncodeTable>)
    requires forall k :: 0 <= k < sorted.Length ==> 0 <= sorted[k].low <= sorted[k].high <= reverse.Length
    ensures Bounds(encode) == sorted[..]
    ensures forall k :: 0 <= k < |encode| ==> SparseImage(reverse[..], encode[k].low, encode[k].high, encode[k].entries)
  {
    encode := [];
    for k := 0 to sorted.Length
      invariant |encode| == k
      invariant forall t :: 0 <= t < k ==> encode[t].low == sorted[t].low && encode[t].high == sorted[t].high
      invariant forall t :: 0 <= t < k ==> SparseImage(reverse[..], encode[t].low, encode[t].high, encode[t].entries)
    {
      var entries := NonZeroEntries(reverse, sorted[k].low, sorted[k].high);
      encode := encode + [EncodeTable(sorted[k].low, sorted[k].high, entries)];
    }
  }

  /** Reading the decode table with absent entries as 0 gives back every pointer slot. */
  lemma DecodeTableExact(s: seq<int>, decode: map<int, int>)
    requires SparseImage(s, 0, |s|, decode)
    ensures forall x :: 0 <= x < |s| ==> Entry(decode, x) == s[x]
  {
  }

  /** EncodeTablesExact for every slot of s at once. */
  lemma EncodeTablesExactAll(s: seq<int>, sep: int, ivs: seq<Interval>, tables: seq<EncodeTable>)
    requires sep > 0 && IsSplit(s, sep, ivs) && multiset(ivs) == multiset(Bounds(tables))
    requires forall k :: 0 <= k < |tables| ==> SparseImage(s, tables[k].low, tables[k].high, tables[k].entries)
    ensures forall y :: 0 <= y < |s| ==> EncodeLookup(tables, y) == s[y]
  {
  }

  /** PermutedBounds for every interval of the permuted list at once. */
  lemma AllPermutedBounds(s: seq<int>, sep: int, ivs: seq<Interval>, sorted: seq<Interval>)
    requires IsSplit(s, sep, ivs) && multiset(ivs) == multiset(sorted)
    ensures forall k :: 0 <= k < |sorted| ==> 0 <= sorted[k].low <= sorted[k].high <= |s|
  {
    forall k | 0 <= k < |sorted|
      ensures 0 <= sorted[k].low <= sorted[k].high <= |s|
    {
      PermutedBounds(s, sep, ivs, sorted, k);
    }
  }

  /**
   * The encode half of the output: scan the encode accumulator for
   * intervals, sort them by decreasing length and emit one encode table per
   * interval.
   */
  method EncodeTables(reverse: array<int>, separation: int) returns (encode: seq<EncodeTable>)
    requires separation > 0
    ensures forall k :: 0 <= k < |encode| ==>
              SparseImage(reverse[..], encode[k].low, encode[k].high, encode[k].entries)
    ensures exists ivs :: IsSplit(reverse[..], separation, ivs) && multiset(ivs) == multiset(Bounds(encode))
    ensures NonIncreasingLength(Bounds(encode))
    ensures forall y :: 0 <= y < reverse.Length ==> EncodeLookup(encode, y) == reverse[y]
  {
    ghost var rev := reverse[..];
    var intervals := Scan(reverse, separation);
    var sorted := new Interval[|intervals|](k requires 0 <= k < |intervals| => intervals[k]);
    assert sorted[..] == intervals;
    SortByDecreasingLength(sorted);
    assert reverse[..] == rev;

    AllPermutedBounds(rev, separation, intervals, sorted[..]);
    encode := EmitEncodeTables(reverse, sorted);
    assert Bounds(encode) == sorted[..];
    EncodeTablesExactAll(rev, separation, intervals, encode);
    assert IsSplit(rev, separation, intervals) && multiset(intervals) == multiset(Bounds(encode));
  }

  /** The output half of the generator: the decode table, then the encode tables. */
  method BuildTables(mapping: array<int>, reverse: array<int>, separation: int) returns (c: Compiled)
    requires separation > 0
    ensures SparseImage(mapping[..], 0, mapping.Length, c.decode)
    ensures forall x :: 0 <= x < mapping.Length ==> Entry(c.decode, x) == mapping[x]
    ensures forall k :: 0 <= k < |c.encode| ==>
              SparseImage(reverse[..], c.encode[k].low, c.encode[k].high, c.encode[k].entries)
    ensures exists ivs :: IsSplit(reverse[..], separation, ivs) && multiset(ivs) == multiset(Bounds(c.encode))
    ensures NonIncreasingLength(Bounds(c.encode))
    ensures forall y :: 0 <= y < reverse.Length ==> EncodeLookup(c.encode, y) == reverse[y]
  {
    var decode := NonZeroEntries(mapping, 0, mapping.Length);
    DecodeTableExact(mapping[..], decode);
    var encode := EncodeTables(reverse, separation);
    return Compiled(decode, encode);
  }

  /**
   * The whole generator after parsing: ingest the pairs, then build the
   * tables. An out-of-range pointer aborts with no tables.
   */
  method Compile(pairs: seq<Pair>, separation: int) returns (r: Result<Compiled, Fault>)
    requires separation > 0
    requires CodePointsIndexable(pairs)
    ensures r.Failure? <==> !AllInRange(pairs)
    ensures r.Failure? ==>
              exists k :: 0 <= k < |pairs| && AllInRange(pairs[..k]) && !InRange(pairs[k].pointer)
                          && r.error == PointerOutOfRange(pairs[k].pointer)
    ensures r.Success? ==> SparseImage(DecodeSeq(pairs), 0, DecodeSize, r.value.decode)
    ensures r.Success? ==> forall x :: 0 <= x < DecodeSize ==> Entry(r.value.decode, x) == DecodeAt(pairs, x)
    ensures r.Success? ==>
              forall k :: 0 <= k < |r.value.encode| ==>
                SparseImage(EncodeSeq(pairs), r.value.encode[k].low, r.value.encode[k].high, r.value.encode[k].entries)
    ensures r.Success? ==>
              exists ivs :: IsSplit(EncodeSeq(pairs), separation, ivs) && multiset(ivs) == multiset(Bounds(r.value.encode))
    ensures r.Success? ==> NonIncreasingLength(Bounds(r.value.encode))
    ensures r.Success? ==> forall y :: 0 <= y < ReverseSize ==> EncodeLookup(r.value.encode, y) == EncodeAt(pairs, y)
  {
    var ingested := Ingest(pairs);
    if ingested.Failure? {
      return Failure(ingested.error);
    }
    var mapping, reverse := ingested.value.mapping, ingested.value.reverse;
    assert mapping[..] == DecodeSeq(pairs);
    assert reverse[..] == EncodeSeq(pairs);
    var tables := BuildTables(mapping, reverse, separation);
    return Success(tables);
  }

  /** The generator as it runs: Compile with the fixed separation of 1024 zero slots. */
  method Generate(pairs: seq<Pair>) returns (r: Result<Compiled, Fault>)
    requires CodePointsIndexable(pairs)
    ensures r.Failure? <==> !AllInRange(pairs)
    ensures r.Failure? ==>
              exists k :: 0 <= k < |pairs| && AllInRange(pairs[..k]) && !InRange(pairs[k].pointer)
                          && r.error == PointerOutOfRange(pairs[k].pointer)
    ensures r.Success? ==> SparseImage(DecodeSeq(pairs), 0, DecodeSize, r.value.decode)
    ensures r.Success? ==> forall x :: 0 <= x < DecodeSize ==> Entry(r.value.decode, x) == DecodeAt(pairs, x)
    ensures r.Success? ==>
              forall k :: 0 <= k < |r.value.encode| ==>
                SparseImage(EncodeSeq(pairs), r.value.encode[k].low, r.value.encode[k].high, r.value.encode[k].entries)
    ensures r.Success? ==>
              exists ivs :: IsSplit(EncodeSeq(pairs), Separation, ivs) && multiset(ivs) == multiset(Bounds(r.value.encode))
    ensures r.Success? ==> NonIncreasingLength(Bounds(r.value.encode))
    ensures r.Success? ==> forall y :: 0 <= y < ReverseSize ==> EncodeLookup(r.value.encode, y) == EncodeAt(pairs, y)
  {
    r := Compile(pairs, Separation);
  }

  /**
   * Three pairs whose code points U+4E00, U+4E01 and U+4E02 are adjacent:
   * the encode table splits into the single interval [0x4E00, 0x4E03),
   * whatever the gaps between their pointers.
   */
  lemma AdjacentCodePointsShareOneTable()
    ensures var pairs := [Pair(0, 0x4E00), Pair(1, 0x4E01), Pair(200, 0x4E02)];
      && AllInRange(pairs)
      && EncodeAt(pairs, 0x4E00) == 0x8140 && EncodeAt(pairs, 0x4E01) == 0x8141 && EncodeAt(pairs, 0x4E02) == 0x826B
      && IsSplit(EncodeSeq(pairs), 10, [Interval(0x4E00, 0x4E03)])
  {
    var pairs := [Pair(0, 0x4E00), Pair(1, 0x4E01), Pair(200, 0x4E02)];
    var s := EncodeSeq(pairs);
    EncodeIsLastOccurrence(pairs, 0);
    EncodeIsLastOccurrence(pairs, 1);
    EncodeIsLastOccurrence(pairs, 2);
    forall y | 0 <= y < ReverseSize && (y < 0x4E00 || 0x4E03 <= y)
      ensures s[y] == 0
    {
      EncodeNonZeroIff(pairs, y);
    }
    var iv := Interval(0x4E00, 0x4E03);
    assert s[0x4E00] != 0 && s[0x4E01] != 0 && s[0x4E02] != 0;
    assert Dense(s, 10, iv);
  }
}
