# Big5 table generator, modelled in Dafny

This project models the table generator of the Big5 (Traditional Chinese)
encoding, `encoding/traditionalchinese/maketables.go`. The generator reads the
WHATWG Big5 index as a list of (pointer, code point) pairs and builds:

- the **decode table** `mapping`: pointer to code point;
- the **encode accumulator** `reverse`: code point to the packed Big5 lead/trail
  byte pair of its pointer, where the last pair for a code point wins;
- a list of half-open **intervals** `[low, high)` of code points. One
  left-to-right scan of `reverse` finds them, and a run of at least
  `separation` (1024) zero slots starts a new interval;
- the intervals **sorted by decreasing length**, and one offset-indexed
  **encode table** per interval.

The model takes the already-parsed pairs as input. It follows the source's
shape: the ingest loop fills two Dafny arrays in place, the scan is a loop
over the array, the sort swaps elements of an array in place, and the emitted
tables are logical maps from offset to value, not printed Go text.

Modules:

- `Wrappers` (wrappers.dfy): `Option` and `Result`.
- `Big5Pointer` (big5_pointer.dfy): the pointer range, `Pack` (the Big5
  encoder arithmetic of section 12.1.2 of the WHATWG Encoding Standard) and
  its inverse `Unpack` (the pointer formula of the Big5 decoder).
- `MappingIngestor` (ingest.dfy): the specification functions `DecodeAt` and
  `EncodeAt` (last write wins), and the ingest loop `Ingest` over arrays.
- `Intervals` (intervals.dfy): `IsSplit`, the exact description of the scan's
  output; the scan `Scan`; and the lemmas about coverage, order, gaps and
  uniqueness.
- `IntervalSort` (interval_sort.dfy): the `byDecreasingLength` sort, with
  `Less` as `Longer` and `Swap`, done in place by insertion.
- `Tables` (tables.dfy): the emitted tables, the whole pipeline `Compile`, and
  the lemma that looking a code point up in the emitted encode tables gives
  back the encode accumulator.

## Model

| member | source | states |
|---|---|---|
| `Big5Pointer.Pack` | encoding/traditionalchinese/maketables.go:59-65 | The packed value of an in-range pointer has a lead byte in 0x81..0xFE and a trail byte in 0x40..0x7E or 0xA1..0xFE. It is never 0, so 0 can mean "unmapped". |
| `Big5Pointer.Unpack` | encoding/traditionalchinese/maketables.go:59-65 | The inverse of the packing is defined exactly on valid lead/trail byte pairs, and each pointer it returns lies in [0, 126*157). |
| `Big5Pointer.UnpackPack` | encoding/traditionalchinese/maketables.go:59-65 | Unpacking the packing of a pointer returns that pointer. |
| `Big5Pointer.PackUnpack` | encoding/traditionalchinese/maketables.go:59-65 | Every valid byte pair is the packing of the pointer it unpacks to, so the packing is onto the valid pairs. |
| `Big5Pointer.PackInjective` | encoding/traditionalchinese/maketables.go:59-65 | Two pointers have the same packing if and only if they are equal. |
| `MappingIngestor.DecodeAt` | encoding/traditionalchinese/maketables.go:48 | The decode slot of a pointer is 0 or the code point of some pair with that pointer (the last such pair, by `DecodeIsLastOccurrence`). |
| `MappingIngestor.EncodeAt` | encoding/traditionalchinese/maketables.go:59-65 | The encode slot of a code point is 0 or the packing of the pointer of some pair with that code point (the last such pair, by `EncodeIsLastOccurrence`). |
| `MappingIngestor.Ingest` | encoding/traditionalchinese/maketables.go:32-66 | Admits every input whose code points are below 4*65536 up to the first out-of-range pointer. Fails exactly when some pointer is at least 126*157, and the error names the first such pointer. Otherwise `mapping[x]` is `DecodeAt(pairs, x)` for every pointer slot and `reverse[y]` is `EncodeAt(pairs, y)` for every code point slot. |
| `MappingIngestor.RangeErrorBeforeLargeCodePoint` | encoding/traditionalchinese/maketables.go:45-47 | The range check runs before `reverse` is indexed: the input (20000, U+4E00), (0, 0x40000) is admitted and is one on which ingest fails with the range error. |
| `MappingIngestor.EncodeIsLastOccurrence` | encoding/traditionalchinese/maketables.go:50-65 | Last write wins: the encode entry of a code point is the packing of the last pointer paired with it. |
| `MappingIngestor.DecodeIsLastOccurrence` | encoding/traditionalchinese/maketables.go:45-48 | The decode entry of a pointer is the code point of the last pair with that pointer. |
| `MappingIngestor.EncodeNonZeroIff` | encoding/traditionalchinese/maketables.go:33-65 | An encode slot is non-zero if and only if some pair has that code point. |
| `MappingIngestor.DecodeUntouched` | encoding/traditionalchinese/maketables.go:32-48 | A decode slot that no pair names stays 0. |
| `MappingIngestor.LastWinsForU8005` | encoding/traditionalchinese/maketables.go:50-58 | Pointer 2148 packs to 0x8ECD and pointer 6543 to 0xAACC. With U+8005 at both and 6543 later, U+8005 encodes as 0xAACC. |
| `Intervals.Scan` | encoding/traditionalchinese/maketables.go:85-103 | The scan returns the split of the whole encode accumulator. Every interval starts and ends on a non-zero slot. Every zero run inside an interval is shorter than the separation. Consecutive intervals are at least the separation apart with only zeros between. The slots before the first and after the last interval are zero. |
| `Intervals.Ascending` | encoding/traditionalchinese/maketables.go:91-99 | In discovery order, every later interval starts at least the separation after an earlier one ends, so the list is ascending and disjoint. |
| `Intervals.CoveredExactlyOnce` | encoding/traditionalchinese/maketables.go:85-103 | Every non-zero slot lies in exactly one interval. |
| `Intervals.NoIntervalsIffAllZero` | encoding/traditionalchinese/maketables.go:101-103 | The split is empty if and only if every slot is zero. |
| `Intervals.SplitUnique` | encoding/traditionalchinese/maketables.go:81-103 | The conditions `Scan` promises determine its result: two splits of the same slots with the same separation are equal. |
| `Intervals.Interval.Len` | encoding/traditionalchinese/maketables.go:133 | The length `high - low` of [low, high), the measure `Longer` compares. It has no contract of its own; `Tables.TableSizeAtMostLen` states what it bounds. |
| `IntervalSort.Longer` | encoding/traditionalchinese/maketables.go:139 | The `Less` of `byDecreasingLength`: one interval goes before another when it is strictly longer. Its order properties are `LongerIsStrictWeakOrder`. |
| `IntervalSort.LongerIsStrictWeakOrder` | encoding/traditionalchinese/maketables.go:139 | `Longer`, the `Less` of the sort (strictly longer goes first), is irreflexive and transitive, and incomparability (equal length) is transitive: the strict weak order the sort needs. |
| `IntervalSort.Swap` | encoding/traditionalchinese/maketables.go:140 | Exchanges two elements and leaves the others, and the multiset, unchanged. |
| `IntervalSort.SortByDecreasingLength` | encoding/traditionalchinese/maketables.go:135-140 | Afterwards the array is a permutation of its old contents, and no interval is followed by a longer one. Nothing is said about the order of equal lengths. |
| `IntervalSort.Insert` | encoding/traditionalchinese/maketables.go:135-140 | One insertion step of the sort. If the first i intervals are in non-increasing length, afterwards the first i+1 are, the slots after i are unchanged, and the multiset of the array is unchanged. |
| `Tables.NonZeroEntries` | encoding/traditionalchinese/maketables.go:114-125 | The emitted table lists offset `j - low` with value `a[j]` for exactly the non-zero slots `j` in [low, high). |
| `Tables.TableSizeAtMostLen` | encoding/traditionalchinese/maketables.go:117-123 | A table emitted for an interval lists entries only at offsets below the interval's `Len()`, so it has at most `Len()` entries. |
| `Tables.EmitEncodeTables` | encoding/traditionalchinese/maketables.go:114-125 | One table per sorted interval, in the same order and with the same bounds. Each table lists exactly the non-zero encode slots of its interval. |
| `Tables.DecodeTableExact` | encoding/traditionalchinese/maketables.go:74-78 | Reading the decode table with absent entries as 0 gives back every slot of `mapping`. |
| `Tables.EncodeTables` | encoding/traditionalchinese/maketables.go:85-125 | Each emitted table is a sparse image of `reverse`. The tables' bounds are a permutation of the split of `reverse`, in non-increasing length. Looking up any code point in the tables gives `reverse` at that code point. |
| `Tables.BuildTables` | encoding/traditionalchinese/maketables.go:71-125 | The decode table is the sparse image of `mapping`, read back exactly. The encode tables are as `EncodeTables` states. |
| `Tables.EncodeLookupImage` | encoding/traditionalchinese/maketables.go:117-123 | Reading the tables with absent entries as 0 gives the encode slot of a code point in some table's range, and 0 for one in no range. |
| `Tables.EncodeTablesExact` | encoding/traditionalchinese/maketables.go:104-125 | Tables whose bounds are the split in any order, and whose entries are sparse images of the slots, encode every code point exactly as the accumulator does. |
| `Tables.PermutedBounds` | encoding/traditionalchinese/maketables.go:104-117 | Each interval of the sorted list is a non-empty range inside the encode accumulator that starts and ends on a non-zero slot. |
| `Tables.Compile` | encoding/traditionalchinese/maketables.go:32-125 | Fails exactly on an out-of-range pointer and names the first one. Otherwise the decode table lists exactly the non-zero pointer slots, each with the code point of its last pair. The encode tables come from a split of the encode accumulator, permuted into non-increasing length. Together they encode every code point below 4*65536 as `EncodeAt` does. |
| `Tables.Generate` | encoding/traditionalchinese/maketables.go:83-125 | `Compile` with the fixed separation of 1024 zero slots. It fails exactly on an out-of-range pointer and names the first one. Otherwise the decode table is the sparse image of the decode accumulator and gives `DecodeAt` at every pointer. Each encode table is the sparse image of its range of the encode accumulator. Their bounds are a permutation of the split, in non-increasing length, and lookup gives `EncodeAt` at every code point. |
| `Tables.AdjacentCodePointsShareOneTable` | encoding/traditionalchinese/maketables.go:85-103 | Pairs (0, U+4E00), (1, U+4E01), (200, U+4E02) pack to 0x8140, 0x8141 and 0x826B. With separation 10 their encode slots split into the single interval [0x4E00, 0x4E03). |

## Left out

- The HTTP fetch of the index (maketables.go:26-30) is network I/O and is not modelled.
- Line scanning and `fmt.Sscanf` parsing (maketables.go:35-44, 67-69) are not modelled. The input is the list of parsed pairs. Because the pointer is scanned into a `uint16`, `Pair.pointer` has that type, so the source's `x < 0` test can never fire.
- All `fmt.Printf` output (maketables.go:22-24, 71-79, 106-125) is left out: the Go text, the comments and the hex formatting. Only the logical contents of the tables are modelled, as maps from offset to value. `numEncodeTables` is the length of `Compiled.encode`.
- A code point of 4*65536 or more makes the Go program panic when it indexes `reverse`. `MappingIngestor.Ingest`, `Tables.Compile` and `Tables.Generate` require instead that every code point the loop reaches (every pair up to the first out-of-range pointer) is below 4*65536, so the panic itself is not modelled. Inputs where such a code point only follows an out-of-range pointer are covered and end with the range error.
- `sort.Sort`'s own algorithm is replaced by an insertion sort that uses the same `Less` and `Swap`. Only the sort's promise is modelled: a permutation with non-increasing lengths. Go sorts the slice itself; the model copies the discovered list into an array and sorts that array in place.
- `Tables.EncodeLookup` and `Tables.Entry` describe how a consumer reads the emitted tables: the first table whose range holds the code point, with absent entries as 0. The consumer is not part of this model.
- display/dict_test.go is a binary-size test of another package and has no logic to model.
- Equal-length order: `sort.Sort` is not stable, so the model promises nothing about the order of intervals of equal length.
- `reverse` is indexed by code point, so pairs with adjacent code points share one interval whatever their pointers (`Tables.AdjacentCodePointsShareOneTable`).
