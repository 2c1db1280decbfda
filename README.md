# ListUtil.split, modelled in Dafny

The repository is one static utility, `ListUtil.split(original, splitSize)`,
which partitions a `List` into a list of sublists. It throws
`IllegalArgumentException` when `splitSize <= 0` (before it looks at the list,
so also for a `null` list), returns an empty list for a `null` list, and
otherwise runs a counting loop `i = 0 .. size / splitSize` that adds, for each
`i`, the sublist `[splitSize * i, min(splitSize * i + 1, size))`.

The model lives in two files:

- `Wrappers.dfy`: `Option` (a `null` reference is `None`) and `Result`
  (a thrown exception is `Failure`).
- `ListUtil.dfy`: the module `ListUtil`. `Split` is the method with the same
  validation, null check and loop as the source, proved equal to the pure
  specification `SplitSpec`, whose chunks are defined by `Chunk`/`Chunks`.
  Lemmas then state what the result is: how many chunks, that every slice is
  within range, how large each chunk is, when the last one is empty, their
  order, and which elements survive (every `splitSize`-th one, captured by the
  reference function `Strided`).

The model follows the code, not the documentation comment: every chunk has at
most one element, and for `splitSize > 1` the elements between chunk starts
are dropped. The documented behaviour (upper bound
`min(splitSize * i + splitSize, size)`) is modelled beside it as
`SplitIntended`, with its coverage proved; see "## Findings".

## Model

| member | source | states |
|---|---|---|
| `ListUtil.Split` | src/main/java/de/rkl/util/ListUtil.java:32-57 | the loop's result (or the thrown exception) is exactly `SplitSpec`; its invariant says the result list holds chunks `0 .. i-1` after `i` iterations |
| `ListUtil.SplitRejectsNonPositive` | src/main/java/de/rkl/util/ListUtil.java:34-38 | for every `splitSize <= 0` the call fails with `IllegalArgument` and its message, whatever the list, `null` included |
| `ListUtil.SplitOfNull` | src/main/java/de/rkl/util/ListUtil.java:40-56 | a `null` list with a positive split size yields an empty result list |
| `ListUtil.SplitShape` | src/main/java/de/rkl/util/ListUtil.java:46-51 | a non-null list of size `n` yields exactly `n / splitSize + 1` chunks, chunk `i` being the in-range slice `[splitSize*i, min(splitSize*i+1, n))` |
| `ListUtil.ChunkBounds` | src/main/java/de/rkl/util/ListUtil.java:47-51 | for every loop index, `0 <= from <= to <= n` for the `subList` call, so it never goes out of range (with unbounded integers) |
| `ListUtil.Chunk` | src/main/java/de/rkl/util/ListUtil.java:50-51 | chunk `i` holds at most one element (hence at most `splitSize`): `[s[splitSize*i]]` when that index is inside the list, empty otherwise |
| `ListUtil.LastChunkEmptyIff` | src/main/java/de/rkl/util/ListUtil.java:19-21 | the last chunk is empty exactly when the size is a multiple of `splitSize` (including size 0); every earlier chunk is non-empty |
| `ListUtil.ChunksAscending` | src/main/java/de/rkl/util/ListUtil.java:29-30 | for `i < j` the start index of chunk `i` is strictly below that of chunk `j` and the range of chunk `i` ends before that of chunk `j` starts; with `SplitShape`, which makes these ranges the chunks' slices, chunks are ordered and never overlap |
| `ListUtil.Min` | src/main/java/de/rkl/util/ListUtil.java:51 | `Math.min`: the result is one of the arguments and no larger than either |
| `ListUtil.ChunksTail` | src/main/java/de/rkl/util/ListUtil.java:48-51 | after the first chunk, the chunks of a list are the chunks of the list with its first `splitSize` elements removed |
| `ListUtil.SplitKeepsStrided` | src/main/java/de/rkl/util/ListUtil.java:48-51 | the chunks, concatenated in order, are exactly `Strided(s, splitSize)`: the elements at multiples of `splitSize`; every other element is dropped |
| `ListUtil.StridedAt` | src/main/java/de/rkl/util/ListUtil.java:48-51 | element `j` kept by the split is `s[splitSize * j]`, and that index is inside the list |
| `ListUtil.StridedLength` | src/main/java/de/rkl/util/ListUtil.java:48-51 | the split keeps `ceil(n / splitSize)` elements |
| `ListUtil.StridedUnit` | src/main/java/de/rkl/util/ListUtil.java:48-51 | with a stride of 1 no element is dropped |
| `ListUtil.UnitSplitRoundTrip` | src/main/java/de/rkl/util/ListUtil.java:47-51 | with `splitSize == 1` there are `n + 1` chunks, their concatenation is the original list, and the last chunk is empty |
| `ListUtil.SplitDropsElements` | src/main/java/de/rkl/util/ListUtil.java:50-51 | splitting `[1, 2, 3, 4, 5]` by 2 gives `[[1], [3], [5]]`, whose concatenation is not the list, while the documented bound gives `[[1, 2], [3, 4], [5]]` |
| `ListUtil.SplitIntended` | src/main/java/de/rkl/util/ListUtil.java:32-57 | the same loop with the documented upper bound `min(splitSize*i + splitSize, n)` returns exactly `SplitIntendedSpec` |
| `ListUtil.IntendedChunkBounds` | src/main/java/de/rkl/util/ListUtil.java:47-51 | the documented range of chunk `i` is also within the list |
| `ListUtil.IntendedChunk` | src/main/java/de/rkl/util/ListUtil.java:17-28 | a documented chunk holds `min(splitSize, n - splitSize*i)` elements, element `j` being `s[splitSize*i + j]`, so it never exceeds `splitSize` |
| `ListUtil.IntendedChunksTail` | src/main/java/de/rkl/util/ListUtil.java:17-18 | the first documented chunk is the first `splitSize` elements and the rest are the documented chunks of the remainder |
| `ListUtil.IntendedSplitCovers` | src/main/java/de/rkl/util/ListUtil.java:16-30 | the documented chunks, concatenated in order, reproduce the list exactly |
| `ListUtil.IntendedLastChunkEmptyIff` | src/main/java/de/rkl/util/ListUtil.java:19-21 | for the documented split the last chunk is empty exactly when the size is a multiple of `splitSize`; all earlier chunks hold exactly `splitSize` elements |

## Left out

- `synchronized (original)` (ListUtil.java:44): a cooperative lock for concurrent callers; the list is an immutable sequence for the duration of the call.
- View semantics of `List.subList`: chunks are value slices, so writes through a chunk into the list, or later changes of the list seen through a chunk, are not modelled.
- Java `int` arithmetic: sizes, indices and `splitSize * i + 1` are unbounded integers. In Java the sum wraps only when `splitSize * i == Integer.MAX_VALUE`, which needs a list of size exactly `Integer.MAX_VALUE` and, that number being prime, `splitSize` equal to 1 or to `Integer.MAX_VALUE`; the upper bound then becomes `Integer.MIN_VALUE` and `subList` throws `IndexOutOfBoundsException`. That case is not modelled.
- ChunkBounds: the in-range guarantee holds for unbounded integers; with Java `int`, the single case above does pass an out-of-range pair to `subList`. The `IndexOutOfBoundsException` of `List.subList` is not modelled as an error path.
- The private constructor (ListUtil.java:13-14) has no behaviour.

## Findings

| source | as written | input that shows it | evidently intended | confidence | as-written member | corrected member |
|---|---|---|---|---|---|---|
| src/main/java/de/rkl/util/ListUtil.java:50-51 | chunk `i` ends at `min(splitSize*i + 1, size)`, so each chunk has at most one element and the elements between chunk starts are lost | `split([1, 2, 3, 4, 5], 2)` gives `[[1], [3], [5]]` | the documented sublists of up to `splitSize` elements covering the list, ending at `min(splitSize*i + splitSize, size)`: `[[1, 2], [3, 4], [5]]` | high, by proof; not executed | `ListUtil.SplitDropsElements` | `ListUtil.SplitIntended` |

`Split` keeps the behaviour as written, because that is what callers of this
code observe; `SplitIntended` is the corrected operation, for which
`IntendedSplitCovers` proves that the chunks reproduce the list and
`IntendedChunk` that no chunk exceeds `splitSize`.
