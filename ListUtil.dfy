/**
 * A model of `ListUtil.split`, which partitions a list into a list of
 * sublists. Lists are immutable sequences here and each sublist is a value
 * slice of the original rather than a view backed by it.
 *
 * `Split` follows the code as written: chunk `i` covers the index range
 * `[splitSize * i, min(splitSize * i + 1, n))`, so every chunk holds at most
 * one element and, for `splitSize > 1`, the elements between chunk starts are
 * dropped. `SplitIntended` is the same loop with the upper bound
 * `min(splitSize * i + splitSize, n)` that the documentation describes.
 */
module ListUtil {
  import opened Wrappers

  /** The exceptions `split` can throw. */
  datatype Error = IllegalArgument(message: string)

  /** The message of the exception thrown for a non-positive split size. */
  const NonPositiveSplitSize: string := "splitSize must be a positive integer."

  /** `Math.min` on integers. */
  function Min(a: int, b: int): (m: int)
    ensures m <= a && m <= b
    ensures m == a || m == b
  {
    if a < b then a else b
  }

  /** The concatenation of a list of lists, in order. */
  function Flatten<E>(chunks: seq<seq<E>>): seq<E>
  {
    if chunks == [] then [] else chunks[0] + Flatten(chunks[1..])
  }

  // ---------------------------------------------------------------------
  // The split as written
  // ---------------------------------------------------------------------

  /**
   * The loop index never exceeds `n / splitSize`, so the range handed to
   * `subList` for chunk `i` lies within the list: `subList` cannot throw.
   */
  lemma ChunkBounds(n: nat, splitSize: int, i: nat)
    requires splitSize > 0 && i <= n / splitSize
    ensures 0 <= splitSize * i <= Min(splitSize * i + 1, n) <= n
  {
    calc {
      splitSize * i;
    <= { MulLeft(splitSize, i, n / splitSize); }
      splitSize * (n / splitSize);
    <= n;
    }
  }

  /** Multiplying by a positive factor keeps the order. */
  lemma MulLeft(k: nat, a: int, b: int)
    requires a <= b
    ensures k * a <= k * b
  {
    assert k * b == k * a + k * (b - a);
  }

  /** Chunk `i` of `s`: the sublist the code adds in iteration `i`. */
  function Chunk<E>(s: seq<E>, splitSize: int, i: nat): (c: seq<E>)
    requires splitSize > 0 && i <= |s| / splitSize
    ensures |c| <= 1 && |c| <= splitSize
    ensures c == if splitSize * i < |s| then [s[splitSize * i]] else []
  {
    ChunkBounds(|s|, splitSize, i);
    s[splitSize * i .. Min(splitSize * i + 1, |s|)]
  }

  /** All chunks of `s`, for `i` from 0 to `|s| / splitSize` inclusive. */
  function Chunks<E>(s: seq<E>, splitSize: int): seq<seq<E>>
    requires splitSize > 0
  {
    seq(|s| / splitSize + 1, i requires 0 <= i <= |s| / splitSize => Chunk(s, splitSize, i))
  }

  /** What `split(original, splitSize)` returns or throws. */
  function SplitSpec<E>(original: Option<seq<E>>, splitSize: int): Result<seq<seq<E>>, Error>
  {
    if splitSize <= 0 then Failure(IllegalArgument(NonPositiveSplitSize))
    else if original.None? then Success([])
    else Success(Chunks(original.value, splitSize))
  }

  /**
   * `split`: validates the split size, then fills a fresh result list with
   * one chunk per iteration of a counting loop.
   */
  method Split<E>(original: Option<seq<E>>, splitSize: int) returns (r: Result<seq<seq<E>>, Error>)
    ensures r == SplitSpec(original, splitSize)
  {
    if splitSize <= 0 {
      return Failure(IllegalArgument(NonPositiveSplitSize));
    }
    var splitList: seq<seq<E>> := [];
    if original.Some? {
      var s := original.value;
      var originalSize := |s|;
      var numberOfSplits := originalSize / splitSize;
      var i := 0;
      while i <= numberOfSplits
        invariant 0 <= i <= numberOfSplits + 1
        invariant splitList == Chunks(s, splitSize)[..i]
      {
        ChunkBounds(originalSize, splitSize, i);
        splitList := splitList + [s[splitSize * i .. Min(splitSize * i + 1, originalSize)]];
        i := i + 1;
      }
      assert splitList == Chunks(s, splitSize);
    }
    return Success(splitList);
  }

  /** The split size is validated before the list is looked at, null or not. */
  lemma SplitRejectsNonPositive<E>(original: Option<seq<E>>, splitSize: int)
    requires splitSize <= 0
    ensures SplitSpec(original, splitSize) == Failure(IllegalArgument(NonPositiveSplitSize))
  {
  }

  /** A null list with a valid split size gives an empty result list. */
  lemma SplitOfNull<E>(splitSize: int)
    requires splitSize > 0
    ensures SplitSpec<E>(None, splitSize) == Success([])
  {
  }

  /**
   * A non-null list of size `n` gives exactly `n / splitSize + 1` chunks,
   * chunk `i` being the slice `[splitSize * i, min(splitSize * i + 1, n))`.
   */
  lemma SplitShape<E>(s: seq<E>, splitSize: int)
    requires splitSize > 0
    ensures SplitSpec(Some(s), splitSize).Success?
    ensures |SplitSpec(Some(s), splitSize).value| == |s| / splitSize + 1
    ensures forall i :: 0 <= i <= |s| / splitSize ==>
      0 <= splitSize * i <= Min(splitSize * i + 1, |s|) <= |s| &&
      SplitSpec(Some(s), splitSize).value[i] == s[splitSize * i .. Min(splitSize * i + 1, |s|)]
  {
    forall i | 0 <= i <= |s| / splitSize
      ensures 0 <= splitSize * i <= Min(splitSize * i + 1, |s|) <= |s|
    {
      ChunkBounds(|s|, splitSize, i);
    }
  }

  /**
   * Every chunk but the last holds an element; the last one is empty exactly
   * when the size of the list is a multiple of the split size.
   */
  lemma LastChunkEmptyIff<E>(s: seq<E>, splitSize: int)
    requires splitSize > 0
    ensures var r := Chunks(s, splitSize);
      (r[|r| - 1] == []) <==> |s| % splitSize == 0
    ensures var r := Chunks(s, splitSize);
      forall i :: 0 <= i < |r| - 1 ==> r[i] != []
  {
    var r := Chunks(s, splitSize);
    LastStart(|s|, splitSize);
    assert r[|r| - 1] == Chunk(s, splitSize, |s| / splitSize);
    forall i | 0 <= i < |r| - 1
      ensures r[i] != []
    {
      EarlierEnd(|s|, splitSize, i);
    }
  }

  /** The last chunk starts before the end exactly when `n` is not a multiple of `splitSize`. */
  lemma LastStart(n: nat, splitSize: int)
    requires splitSize > 0
    ensures splitSize * (n / splitSize) < n <==> n % splitSize != 0
  {
    assert n == splitSize * (n / splitSize) + n % splitSize;
  }

  /** A chunk before the last one ends, at full size, within the list. */
  lemma EarlierEnd(n: nat, splitSize: int, i: nat)
    requires splitSize > 0 && i < n / splitSize
    ensures splitSize * i + splitSize <= n
  {
    MulLeft(splitSize, i + 1, n / splitSize);
    assert splitSize * (i + 1) == splitSize * i + splitSize;
    assert n == splitSize * (n / splitSize) + n % splitSize;
  }

  /**
   * Chunks come in ascending order of their start index: starts strictly
   * increase and the range of an earlier chunk ends before a later one starts.
   * The ranges are those of the chunks of a list of size `n`, chunk `i` being
   * the slice `[splitSize * i, min(splitSize * i + 1, n))` (see `SplitShape`).
   */
  lemma ChunksAscending(n: nat, splitSize: int, i: nat, j: nat)
    requires splitSize > 0 && i < j <= n / splitSize
    ensures splitSize * i < splitSize * j
    ensures Min(splitSize * i + 1, n) <= splitSize * j
  {
    MulLeft(splitSize, i + 1, j);
    assert splitSize * (i + 1) == splitSize * i + splitSize;
  }

  /**
   * Reference definition of the elements the split keeps: every
   * `splitSize`-th element of `s`, starting with the first.
   */
  function Strided<E>(s: seq<E>, splitSize: int): seq<E>
    requires splitSize > 0
    decreases |s|
  {
    if |s| == 0 then [] else [s[0]] + Strided(s[Min(splitSize, |s|)..], splitSize)
  }

  /** Element `j` of `Strided(s, splitSize)` is `s[splitSize * j]`. */
  lemma {:induction false} StridedAt<E>(s: seq<E>, splitSize: int, j: nat)
    requires splitSize > 0 && j < |Strided(s, splitSize)|
    ensures splitSize * j < |s| && Strided(s, splitSize)[j] == s[splitSize * j]
    decreases |s|
  {
    if j == 0 {
      assert splitSize * j == 0;
    } else {
      var t := s[Min(splitSize, |s|)..];
      assert Strided(s, splitSize) == [s[0]] + Strided(t, splitSize);
      assert |s| > splitSize && t == s[splitSize..];
      StridedAt(t, splitSize, j - 1);
      var m := splitSize * (j - 1);
      MulSucc(splitSize, j - 1);
      calc {
        Strided(s, splitSize)[j];
        Strided(t, splitSize)[j - 1];
        t[m];
        s[splitSize + m];
      }
    }
  }

  /** `k * (i + 1) == k * i + k`. */
  lemma MulSucc(k: int, i: int)
    ensures k * (i + 1) == k * i + k
  {
  }

  /** `Strided(s, splitSize)` keeps `ceil(|s| / splitSize)` elements. */
  lemma {:induction false} StridedLength<E>(s: seq<E>, splitSize: int)
    requires splitSize > 0
    ensures |Strided(s, splitSize)| == (|s| + splitSize - 1) / splitSize
    decreases |s|
  {
    if |s| > 0 {
      var t := s[Min(splitSize, |s|)..];
      StridedLength(t, splitSize);
      if |s| <= splitSize {
        assert |t| == 0;
        DivUnique(|s| + splitSize - 1, splitSize, 1, |s| - 1);
      } else {
        DivShift(|s| + splitSize - 1, splitSize);
      }
    }
  }

  /** Quotient and remainder are the only ones with `x == k * q + r`, `0 <= r < k`. */
  lemma DivUnique(x: int, k: int, q: int, r: int)
    requires k > 0 && 0 <= r < k && x == k * q + r
    ensures x / k == q && x % k == r
  {
    var q', r' := x / k, x % k;
    assert x == k * q' + r' && 0 <= r' < k;
    assert k * (q' + 1) == k * q' + k && k * (q + 1) == k * q + k;
    if q' < q {
      MulLeft(k, q' + 1, q);
    } else if q < q' {
      MulLeft(k, q + 1, q');
    }
  }

  /** `(x - k) / k + 1 == x / k` when `x >= k > 0`. */
  lemma DivShift(x: int, k: int)
    requires k > 0 && x >= k
    ensures (x - k) / k + 1 == x / k
  {
    var q, r := (x - k) / k, (x - k) % k;
    assert x - k == k * q + r && 0 <= r < k;
    assert k * (q + 1) == k * q + k;
    DivUnique(x, k, q + 1, r);
  }

  /** After the first chunk, the chunks of `s` are the chunks of `s[splitSize..]`. */
  lemma ChunksTail<E>(s: seq<E>, splitSize: int)
    requires splitSize > 0 && |s| >= splitSize
    ensures Chunks(s, splitSize)[1..] == Chunks(s[splitSize..], splitSize)
  {
    var r, t := Chunks(s, splitSize), s[splitSize..];
    DivShift(|s|, splitSize);
    assert |r[1..]| == |Chunks(t, splitSize)|;
    forall i | 0 <= i < |r| - 1
      ensures r[1..][i] == Chunks(t, splitSize)[i]
    {
      ChunkShift(s, splitSize, i);
    }
  }

  /** Chunk `i + 1` of `s` is chunk `i` of `s[splitSize..]`. */
  lemma ChunkShift<E>(s: seq<E>, splitSize: int, i: nat)
    requires splitSize > 0 && |s| >= splitSize
    requires i + 1 <= |s| / splitSize && i <= (|s| - splitSize) / splitSize
    ensures Chunk(s, splitSize, i + 1) == Chunk(s[splitSize..], splitSize, i)
  {
    MulSucc(splitSize, i);
    assert splitSize * (i + 1) == splitSize + splitSize * i;
  }

  /**
   * The chunks, concatenated in order, are exactly every `splitSize`-th
   * element of the list: all other elements are dropped.
   */
  lemma {:induction false} SplitKeepsStrided<E>(s: seq<E>, splitSize: int)
    requires splitSize > 0
    ensures Flatten(Chunks(s, splitSize)) == Strided(s, splitSize)
    decreases |s|
  {
    if |s| < splitSize {
      ShortSplitKeepsStrided(s, splitSize);
    } else {
      SplitKeepsStrided(s[splitSize..], splitSize);
      SplitKeepsStridedStep(s, splitSize);
    }
  }

  /** A list shorter than the split size gives one chunk: its first element, if any. */
  lemma ShortSplitKeepsStrided<E>(s: seq<E>, splitSize: int)
    requires 0 <= |s| < splitSize
    ensures Flatten(Chunks(s, splitSize)) == Strided(s, splitSize)
  {
    var r := Chunks(s, splitSize);
    DivUnique(|s|, splitSize, 0, |s|);
    assert splitSize * 0 == 0;
    assert |r| == 1 && r[0] == Chunk(s, splitSize, 0);
    if |s| == 0 {
      assert r == [[]];
    } else {
      assert r == [[s[0]]];
      assert s[Min(splitSize, |s|)..] == [];
    }
  }

  /** The inductive step of `SplitKeepsStrided`: the first chunk is `[s[0]]`. */
  lemma SplitKeepsStridedStep<E>(s: seq<E>, splitSize: int)
    requires splitSize > 0 && |s| >= splitSize
    requires Flatten(Chunks(s[splitSize..], splitSize)) == Strided(s[splitSize..], splitSize)
    ensures Flatten(Chunks(s, splitSize)) == Strided(s, splitSize)
  {
    var r, t := Chunks(s, splitSize), s[splitSize..];
    ChunksTail(s, splitSize);
    assert splitSize * 0 == 0;
    assert r[0] == [s[0]];
    calc {
      Flatten(r);
      r[0] + Flatten(r[1..]);
      [s[0]] + Flatten(Chunks(t, splitSize));
      [s[0]] + Strided(t, splitSize);
      Strided(s, splitSize);
    }
  }

  /**
   * With a split size of 1 the chunks, concatenated, reproduce the list and
   * are followed by one trailing empty chunk.
   */
  lemma {:induction false} UnitSplitRoundTrip<E>(s: seq<E>)
    ensures |Chunks(s, 1)| == |s| + 1
    ensures Flatten(Chunks(s, 1)) == s
    ensures Chunks(s, 1)[|s|] == []
  {
    SplitKeepsStrided(s, 1);
    StridedUnit(s);
  }

  /** Every element is kept when the stride is 1. */
  lemma {:induction false} StridedUnit<E>(s: seq<E>)
    ensures Strided(s, 1) == s
    decreases |s|
  {
    if |s| > 0 {
      StridedUnit(s[1..]);
    }
  }

  // ---------------------------------------------------------------------
  // The split as documented
  // ---------------------------------------------------------------------

  /** Chunk `i` with the documented upper bound `min(splitSize * (i + 1), n)`. */
  function IntendedChunk<E>(s: seq<E>, splitSize: int, i: nat): (c: seq<E>)
    requires splitSize > 0 && i <= |s| / splitSize
    ensures |c| == Min(splitSize, |s| - splitSize * i)
    ensures forall j :: 0 <= j < |c| ==> c[j] == s[splitSize * i + j]
  {
    IntendedChunkBounds(|s|, splitSize, i);
    s[splitSize * i .. Min(splitSize * i + splitSize, |s|)]
  }

  /** The documented range of chunk `i` lies within the list as well. */
  lemma IntendedChunkBounds(n: nat, splitSize: int, i: nat)
    requires splitSize > 0 && i <= n / splitSize
    ensures 0 <= splitSize * i <= Min(splitSize * i + splitSize, n) <= n
  {
    ChunkBounds(n, splitSize, i);
  }

  /** All documented chunks of `s`, for `i` from 0 to `|s| / splitSize`. */
  function IntendedChunks<E>(s: seq<E>, splitSize: int): seq<seq<E>>
    requires splitSize > 0
  {
    seq(|s| / splitSize + 1, i requires 0 <= i <= |s| / splitSize => IntendedChunk(s, splitSize, i))
  }

  /** What `split` returns or throws with the documented upper bound. */
  function SplitIntendedSpec<E>(original: Option<seq<E>>, splitSize: int): Result<seq<seq<E>>, Error>
  {
    if splitSize <= 0 then Failure(IllegalArgument(NonPositiveSplitSize))
    else if original.None? then Success([])
    else Success(IntendedChunks(original.value, splitSize))
  }

  /** `split` with the documented upper bound of each chunk. */
  method SplitIntended<E>(original: Option<seq<E>>, splitSize: int) returns (r: Result<seq<seq<E>>, Error>)
    ensures r == SplitIntendedSpec(original, splitSize)
  {
    if splitSize <= 0 {
      return Failure(IllegalArgument(NonPositiveSplitSize));
    }
    var splitList: seq<seq<E>> := [];
    if original.Some? {
      var s := original.value;
      var originalSize := |s|;
      var numberOfSplits := originalSize / splitSize;
      var i := 0;
      while i <= numberOfSplits
        invariant 0 <= i <= numberOfSplits + 1
        invariant splitList == IntendedChunks(s, splitSize)[..i]
      {
        IntendedChunkBounds(originalSize, splitSize, i);
        splitList := splitList + [s[splitSize * i .. Min(splitSize * i + splitSize, originalSize)]];
        i := i + 1;
      }
      assert splitList == IntendedChunks(s, splitSize);
    }
    return Success(splitList);
  }

  /** After the first documented chunk come the documented chunks of `s[splitSize..]`. */
  lemma IntendedChunksTail<E>(s: seq<E>, splitSize: int)
    requires splitSize > 0 && |s| >= splitSize
    ensures IntendedChunks(s, splitSize)[0] == s[..splitSize]
    ensures IntendedChunks(s, splitSize)[1..] == IntendedChunks(s[splitSize..], splitSize)
  {
    var r, t := IntendedChunks(s, splitSize), s[splitSize..];
    DivShift(|s|, splitSize);
    assert |r[1..]| == |IntendedChunks(t, splitSize)|;
    forall i | 0 <= i < |r| - 1
      ensures r[1..][i] == IntendedChunks(t, splitSize)[i]
    {
      IntendedChunkShift(s, splitSize, i);
    }
  }

  /** Documented chunk `i + 1` of `s` is documented chunk `i` of `s[splitSize..]`. */
  lemma IntendedChunkShift<E>(s: seq<E>, splitSize: int, i: nat)
    requires splitSize > 0 && |s| >= splitSize
    requires i + 1 <= |s| / splitSize && i <= (|s| - splitSize) / splitSize
    ensures IntendedChunk(s, splitSize, i + 1) == IntendedChunk(s[splitSize..], splitSize, i)
  {
    var t, m := s[splitSize..], splitSize * i;
    MulSucc(splitSize, i);
    IntendedChunkBounds(|s|, splitSize, i + 1);
    IntendedChunkBounds(|t|, splitSize, i);
    assert IntendedChunk(s, splitSize, i + 1) == s[m + splitSize .. Min(m + splitSize + splitSize, |s|)];
    assert IntendedChunk(t, splitSize, i) == t[m .. Min(m + splitSize, |t|)];
  }

  /** The documented chunks, concatenated in order, reproduce the list. */
  lemma {:induction false} IntendedSplitCovers<E>(s: seq<E>, splitSize: int)
    requires splitSize > 0
    ensures Flatten(IntendedChunks(s, splitSize)) == s
    decreases |s|
  {
    if |s| < splitSize {
      ShortIntendedSplitCovers(s, splitSize);
    } else {
      IntendedSplitCovers(s[splitSize..], splitSize);
      IntendedSplitCoversStep(s, splitSize);
    }
  }

  /** A list shorter than the split size is its own single documented chunk. */
  lemma ShortIntendedSplitCovers<E>(s: seq<E>, splitSize: int)
    requires 0 <= |s| < splitSize
    ensures IntendedChunks(s, splitSize) == [s]
  {
    var r := IntendedChunks(s, splitSize);
    DivUnique(|s|, splitSize, 0, |s|);
    assert |r| == 1 && r[0] == s;
  }

  /** The inductive step of `IntendedSplitCovers`: the first chunk is `s[..splitSize]`. */
  lemma IntendedSplitCoversStep<E>(s: seq<E>, splitSize: int)
    requires splitSize > 0 && |s| >= splitSize
    requires Flatten(IntendedChunks(s[splitSize..], splitSize)) == s[splitSize..]
    ensures Flatten(IntendedChunks(s, splitSize)) == s
  {
    IntendedChunksTail(s, splitSize);
    FlattenCons(IntendedChunks(s, splitSize), IntendedChunks(s[splitSize..], splitSize), s, splitSize);
  }

  /**
   * Lists of lists whose first list is `s[..k]` and whose other lists
   * concatenate to `s[k..]` concatenate to `s`.
   */
  lemma FlattenCons<E>(r: seq<seq<E>>, tail: seq<seq<E>>, s: seq<E>, k: nat)
    requires k <= |s| && |r| > 0 && r[0] == s[..k] && r[1..] == tail
    requires Flatten(tail) == s[k..]
    ensures Flatten(r) == s
  {
    assert s[..k] + s[k..] == s;
  }

  /**
   * The last documented chunk is empty exactly when the size of the list is
   * a multiple of the split size; all earlier chunks are full.
   */
  lemma IntendedLastChunkEmptyIff<E>(s: seq<E>, splitSize: int)
    requires splitSize > 0
    ensures var r := IntendedChunks(s, splitSize);
      (r[|r| - 1] == []) <==> |s| % splitSize == 0
    ensures var r := IntendedChunks(s, splitSize);
      forall i :: 0 <= i < |r| - 1 ==> |r[i]| == splitSize
  {
    LastStart(|s|, splitSize);
    ChunkBounds(|s|, splitSize, |s| / splitSize);
    forall i | 0 <= i < |s| / splitSize
      ensures splitSize * i + splitSize <= |s|
    {
      EarlierEnd(|s|, splitSize, i);
    }
  }

  /**
   * The code as written drops elements the documentation promises to keep:
   * splitting `[1, 2, 3, 4, 5]` by 2 yields `[[1], [3], [5]]` where
   * `[[1, 2], [3, 4], [5]]` is meant.
   */
  lemma SplitDropsElements()
    ensures SplitSpec(Some([1, 2, 3, 4, 5]), 2) == Success([[1], [3], [5]])
    ensures SplitIntendedSpec(Some([1, 2, 3, 4, 5]), 2) == Success([[1, 2], [3, 4], [5]])
    ensures Flatten(Chunks([1, 2, 3, 4, 5], 2)) != [1, 2, 3, 4, 5]
  {
    var s := [1, 2, 3, 4, 5];
    var r := Chunks(s, 2);
    assert |r| == 3;
    assert r[0] == [1] && r[1] == [3] && r[2] == [5];
    assert r == [[1], [3], [5]];
    assert Flatten(r[2..]) == [5];
    assert Flatten(r[1..]) == [3] + Flatten(r[2..]);
    assert Flatten(r) == [1] + Flatten(r[1..]) == [1, 3, 5];
    var d := IntendedChunks(s, 2);
    assert d[0] == [1, 2] && d[1] == [3, 4] && d[2] == [5];
    assert d == [[1, 2], [3, 4], [5]];
  }
}
