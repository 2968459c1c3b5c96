/**
 * The ingest loop of the table generator: every parsed (pointer, code point)
 * pair is written into the dense decode accumulator `mapping` (pointer to code
 * point) and the dense encode accumulator `reverse` (code point to packed Big5
 * byte pair). Later pairs overwrite earlier ones, so both tables keep the last
 * write; a pointer outside the Big5 range aborts the whole run.
 */
module MappingIngestor {
  import opened Wrappers
  import opened Big5Pointer

  /** Size of `mapping`: one slot per 16-bit pointer. */
  const DecodeSize := 0x1_0000
  /** Size of `reverse`: one slot per code point below 4 * 65536. */
  const ReverseSize := 0x1_0000 * 4

  type uint32 = y: int | 0 <= y < 0x1_0000_0000

  /** One parsed line of the index: a pointer (read as a 16-bit value) and a code point. */
  datatype Pair = Pair(pointer: uint16, codePoint: uint32)

  /** The fatal error of the ingest loop: a pointer outside [0, 126 * 157). */
  datatype Fault = PointerOutOfRange(pointer: int)

  /** The two dense accumulators the loop fills. */
  datatype Accumulators = Accumulators(mapping: array<int>, reverse: array<int>)

  predicate AllInRange(pairs: seq<Pair>) {
    forall i :: 0 <= i < |pairs| ==> InRange(pairs[i].pointer)
  }

  /**
   * Every code point the loop reaches indexes `reverse` (a larger one makes
   * the generator panic). The loop reaches pair k only when the pointers of
   * pairs 0..k are all in range, because the range check comes first.
   */
  predicate CodePointsIndexable(pairs: seq<Pair>) {
    forall k :: 0 <= k < |pairs| && AllInRange(pairs[..k + 1]) ==> pairs[k].codePoint < ReverseSize
  }

  /** The decode table entry for pointer x: the code point of the last pair with that pointer, or 0. */
  function DecodeAt(pairs: seq<Pair>, x: int): (c: int)
    ensures c == 0 || exists i :: 0 <= i < |pairs| && pairs[i].pointer == x && pairs[i].codePoint == c
    decreases |pairs|
  {
    if pairs == [] then 0
    else if pairs[|pairs| - 1].pointer == x then pairs[|pairs| - 1].codePoint
    else DecodeAt(pairs[..|pairs| - 1], x)
  }

  /** The encode table entry for code point y: the packing of the last pointer mapped to y, or 0. */
  function EncodeAt(pairs: seq<Pair>, y: int): (p: int)
    requires AllInRange(pairs)
    ensures p == 0 || exists i :: 0 <= i < |pairs| && pairs[i].codePoint == y && p == Pack(pairs[i].pointer)
    decreases |pairs|
  {
    if pairs == [] then 0
    else if pairs[|pairs| - 1].codePoint == y then Pack(pairs[|pairs| - 1].pointer)
    else EncodeAt(pairs[..|pairs| - 1], y)
  }

  /** The whole decode table as a sequence. */
  function DecodeSeq(pairs: seq<Pair>): (s: seq<int>)
    ensures |s| == DecodeSize
  {
    seq(DecodeSize, x => DecodeAt(pairs, x))
  }

  /** The whole encode table as a sequence. */
  function EncodeSeq(pairs: seq<Pair>): (s: seq<int>)
    requires AllInRange(pairs)
    ensures |s| == ReverseSize
  {
    seq(ReverseSize, y => EncodeAt(pairs, y))
  }

  /**
   * Runs the ingest loop. On success the accumulators hold exactly the decode
   * and encode tables of all pairs; otherwise the error names the first
   * out-of-range pointer and no table is produced.
   */
  method Ingest(pairs: seq<Pair>) returns (r: Result<Accumulators, Fault>)
    requires CodePointsIndexable(pairs)
    ensures r.Failure? <==> !AllInRange(pairs)
    ensures r.Failure? ==>
              exists k :: 0 <= k < |pairs| && AllInRange(pairs[..k]) && !InRange(pairs[k].pointer)
                          && r.error == PointerOutOfRange(pairs[k].pointer)
    ensures r.Success? ==> r.value.mapping.Length == DecodeSize && r.value.reverse.Length == ReverseSize
    ensures r.Success? ==> forall x :: 0 <= x < DecodeSize ==> r.value.mapping[x] == DecodeAt(pairs, x)
    ensures r.Success? ==> forall y :: 0 <= y < ReverseSize ==> r.value.reverse[y] == EncodeAt(pairs, y)
  {
    var mapping := new int[DecodeSize](_ => 0);
    var reverse := new int[ReverseSize](_ => 0);
    for k := 0 to |pairs|
      invariant AllInRange(pairs[..k])
      invariant forall x :: 0 <= x < DecodeSize ==> mapping[x] == DecodeAt(pairs[..k], x)
      invariant forall y :: 0 <= y < ReverseSize ==> reverse[y] == EncodeAt(pairs[..k], y)
    {
      var x, y := pairs[k].pointer, pairs[k].codePoint;
      if x < 0 || NumPointers <= x {
        return Failure(PointerOutOfRange(x));
      }
      assert AllInRange(pairs[..k + 1]);
      mapping[x] := y;
      reverse[y] := Pack(x);
      assert pairs[..k + 1][..k] == pairs[..k];
    }
    assert pairs[..|pairs|] == pairs;
    return Success(Accumulators(mapping, reverse));
  }

  /** Last write wins in the encode table: a code point maps to the packing of its last pointer. */
  lemma {:induction false} EncodeIsLastOccurrence(pairs: seq<Pair>, i: int)
    requires AllInRange(pairs)
    requires 0 <= i < |pairs|
    requires forall j :: i < j < |pairs| ==> pairs[j].codePoint != pairs[i].codePoint
    ensures EncodeAt(pairs, pairs[i].codePoint) == Pack(pairs[i].pointer)
  {
    if i < |pairs| - 1 {
      var init := pairs[..|pairs| - 1];
      assert init[i] == pairs[i];
      EncodeIsLastOccurrence(init, i);
    }
  }

  /** Last write wins in the decode table as well. */
  lemma {:induction false} DecodeIsLastOccurrence(pairs: seq<Pair>, i: int)
    requires 0 <= i < |pairs|
    requires forall j :: i < j < |pairs| ==> pairs[j].pointer != pairs[i].pointer
    ensures DecodeAt(pairs, pairs[i].pointer) == pairs[i].codePoint
  {
    if i < |pairs| - 1 {
      var init := pairs[..|pairs| - 1];
      assert init[i] == pairs[i];
      DecodeIsLastOccurrence(init, i);
    }
  }

  /** An encode slot is non-zero exactly when some pair targets its code point. */
  lemma {:induction false} EncodeNonZeroIff(pairs: seq<Pair>, y: int)
    requires AllInRange(pairs)
    ensures EncodeAt(pairs, y) != 0 <==> exists i :: 0 <= i < |pairs| && pairs[i].codePoint == y
  {
    if pairs != [] {
      var init := pairs[..|pairs| - 1];
      EncodeNonZeroIff(init, y);
      if exists i :: 0 <= i < |init| && init[i].codePoint == y {
        var i :| 0 <= i < |init| && init[i].codePoint == y;
        assert pairs[i] == init[i];
      }
    }
  }

  /** A decode slot that no pair names stays 0. */
  lemma {:induction false} DecodeUntouched(pairs: seq<Pair>, x: int)
    requires forall i :: 0 <= i < |pairs| ==> pairs[i].pointer != x
    ensures DecodeAt(pairs, x) == 0
  {
    if pairs != [] {
      DecodeUntouched(pairs[..|pairs| - 1], x);
    }
  }

  /**
   * The case of U+8005, listed at pointers 2148 (bytes 8E CD) and 6543
   * (bytes AA CC): when 6543 is the later of the two and no pair after it
   * maps U+8005, the encode table holds AA CC and not 8E CD.
   */
  lemma LastWinsForU8005(pairs: seq<Pair>, i: int, j: int)
    requires AllInRange(pairs)
    requires 0 <= i < j < |pairs|
    requires pairs[i] == Pair(2148, 0x8005) && pairs[j] == Pair(6543, 0x8005)
    requires forall k :: j < k < |pairs| ==> pairs[k].codePoint != 0x8005
    ensures Pack(2148) == 0x8ECD && Pack(6543) == 0xAACC
    ensures EncodeAt(pairs, 0x8005) == 0xAACC
  {
    EncodeIsLastOccurrence(pairs, j);
  }

  /**
   * The range check comes before the write to `reverse`: a pair whose code
   * point is too large, after an out-of-range pointer, is never reached, so
   * the input is admitted and the run ends with the range error.
   */
  lemma RangeErrorBeforeLargeCodePoint()
    ensures var pairs := [Pair(20000, 0x4E00), Pair(0, 0x4_0000)];
      CodePointsIndexable(pairs) && !AllInRange(pairs)
  {
    var pairs := [Pair(20000, 0x4E00), Pair(0, 0x4_0000)];
    assert !InRange(pairs[0].pointer);
    assert !AllInRange(pairs[..2]);
  }
}
