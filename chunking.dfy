/**
 * Chunking and uid-group arithmetic of storage/validator/utils.py: splitting
 * data into chunks, partitioning uids into groups of `R`, trimming the uid
 * list to a multiple of `R`, the per-chunk metadata of a file and the loop
 * that reuses uid groups when there are more chunks than groups.
 *
 * Sequences stand for both byte strings and uid lists; the hashing, the file
 * reads and the random draws around this arithmetic are not modelled.
 */
module Chunking {
  import opened Wrappers
  import opened PyMath

  /** The chunks joined back together. */
  function Concat<T>(chunks: seq<seq<T>>): seq<T>
  {
    if chunks == [] then [] else chunks[0] + Concat(chunks[1..])
  }

  /**
   * Consecutive slices of `size` elements, the last one shorter when `size`
   * does not divide |s|: what `[s[i : i + size] for i in range(0, len(s), size)]`
   * produces for a positive step.
   */
  function Chunks<T>(s: seq<T>, size: nat): (r: seq<seq<T>>)
    requires size > 0
    ensures |r| == CeilDiv(|s|, size)
    ensures forall i :: 0 <= i < |r| ==> 0 < |r[i]| <= size
    ensures forall i :: 0 <= i < |r| - 1 ==> |r[i]| == size
    decreases |s|
  {
    if |s| == 0 then []
    else if |s| <= size then
      assert CeilDiv(|s|, size) == 1 by { DivModUnique(|s| + size - 1, size, 1, |s| - 1); }
      [s]
    else
      CeilDivStep(|s| - size, size);
      [s[..size]] + Chunks(s[size..], size)
  }

  /** Joining the chunks gives back the input. */
  lemma {:induction false} ChunksConcat<T>(s: seq<T>, size: nat)
    requires size > 0
    ensures Concat(Chunks(s, size)) == s
    decreases |s|
  {
    if |s| > size {
      ChunksConcat(s[size..], size);
      assert s[..size] + s[size..] == s;
    }
  }

  /**
   * Chunk `k` is the slice that starts at `k * size`, as the comprehension
   * over `range(0, len(s), size)` computes it; every chunk starts inside `s`.
   */
  lemma {:induction false} ChunkAt<T>(s: seq<T>, size: nat, k: nat)
    requires size > 0 && k < |Chunks(s, size)|
    ensures k * size < |s|
    ensures Chunks(s, size)[k] == s[k * size .. Min(k * size + size, |s|)]
    decreases |s|
  {
    var r := Chunks(s, size);
    if |s| <= size {
      assert r == [s] && k == 0;
    } else {
      var rest := s[size..];
      assert r == [s[..size]] + Chunks(rest, size);
      if k > 0 {
        ChunkAt(rest, size, k - 1);
        ChunkShift(s, size, k, r[k]);
      }
    }
  }

  /** Chunk `k - 1` of `s[size..]`, placed back in `s`, starts at `k * size`. */
  lemma ChunkShift<T>(s: seq<T>, size: nat, k: nat, chunk: seq<T>)
    requires 0 < size < |s| && k > 0
    requires (k - 1) * size < |s| - size
    requires chunk == s[size..][(k - 1) * size .. Min((k - 1) * size + size, |s| - size)]
    ensures k * size < |s|
    ensures chunk == s[k * size .. Min(k * size + size, |s|)]
  {
    var a := (k - 1) * size;
    assert k * size == a + size;
    SliceOfDrop(s, size, a, Min(a + size, |s| - size));
  }

  /** A slice of `s[d..]` is the slice of `s` shifted by `d`. */
  lemma SliceOfDrop<T>(s: seq<T>, d: nat, a: nat, b: nat)
    requires d <= |s| && a <= b <= |s| - d
    ensures s[d..][a..b] == s[d + a .. d + b]
  {
  }

  /** When `size` divides |s|, every chunk has exactly `size` elements and there are |s| / size of them. */
  lemma ExactChunks<T>(s: seq<T>, size: nat)
    requires size > 0 && |s| % size == 0
    ensures |Chunks(s, size)| == |s| / size
    ensures forall i :: 0 <= i < |Chunks(s, size)| ==> |Chunks(s, size)[i]| == size
  {
    var r := Chunks(s, size);
    CeilDivByFloor(|s|, size);
    var q := |s| / size;
    DivModUnique(|s|, size, q, 0);
    if q > 0 {
      var k := q - 1;
      ChunkAt(s, size, k);
      assert k * size + size == |s|;
    }
  }

  /** When `size` divides |s|, chunk `k` is exactly `s[k * size : k * size + size]`. */
  lemma ExactChunkAt<T>(s: seq<T>, size: nat, k: nat)
    requires size > 0 && |s| % size == 0 && k < |Chunks(s, size)|
    ensures k * size + size <= |s|
    ensures Chunks(s, size)[k] == s[k * size .. k * size + size]
  {
    ExactChunks(s, size);
    ChunkAt(s, size, k);
  }

  /**
   * `chunk_data_generator(data, chunk_size)`, its chunks collected in order.
   * A step of 0 makes `range` raise ValueError; a negative step yields nothing.
   */
  function ChunkDataGenerator<T>(data: seq<T>, chunkSize: int): (r: Result<seq<seq<T>>, PyError>)
    ensures r.Failure? <==> chunkSize == 0
    ensures r.Failure? ==> r.error == ValueError
    ensures chunkSize < 0 ==> r == Success([])
    ensures chunkSize > 0 ==> r.Success? && Concat(r.value) == data
    ensures chunkSize > 0 ==> r.Success? && |r.value| == CeilDiv(|data|, chunkSize)
    ensures chunkSize > 0 ==> (r.Success?
      && (forall i :: 0 <= i < |r.value| ==> 0 < |r.value[i]| <= chunkSize)
      && (forall i :: 0 <= i < |r.value| - 1 ==> |r.value[i]| == chunkSize))
  {
    if chunkSize == 0 then Failure(ValueError)
    else if chunkSize < 0 then Success([])
    else
      ChunksConcat(data, chunkSize);
      Success(Chunks(data, chunkSize))
  }

  /**
   * `partition_uids(available_uids, R)`: consecutive groups of `R` uids, the
   * last one possibly smaller. When `R` divides the number of uids every
   * group has exactly `R` uids.
   */
  function PartitionUids<U>(availableUids: seq<U>, R: int): (r: Result<seq<seq<U>>, PyError>)
    ensures r.Failure? <==> R == 0
    ensures r.Failure? ==> r.error == ValueError
    ensures R < 0 ==> r == Success([])
    ensures R > 0 ==> r.Success? && Concat(r.value) == availableUids
    ensures R > 0 ==> r.Success? && |r.value| == CeilDiv(|availableUids|, R)
    ensures R > 0 ==> r.Success? && forall i :: 0 <= i < |r.value| - 1 ==> |r.value[i]| == R
    ensures R > 0 && |availableUids| % R == 0 ==> (r.Success?
      && |r.value| == |availableUids| / R
      && forall i :: 0 <= i < |r.value| ==> |r.value[i]| == R)
  {
    if R == 0 then Failure(ValueError)
    else if R < 0 then Success([])
    else
      ChunksConcat(availableUids, R);
      if |availableUids| % R == 0 then
        ExactChunks(availableUids, R);
        Success(Chunks(availableUids, R))
      else
        Success(Chunks(availableUids, R))
  }

  /** Python's `s[:stop]`. */
  function Prefix<T>(s: seq<T>, stop: int): seq<T>
  {
    if stop >= 0 then s[..Min(stop, |s|)] else s[..Max(|s| + stop, 0)]
  }

  /**
   * `adjust_uids_to_multiple(available_uids, R)`: for a positive `R`, the
   * longest prefix whose length is a multiple of `R`, which drops fewer than
   * `R` uids. For a negative `R` floor division makes the cut-off at least
   * the length, so the list is returned whole.
   */
  function AdjustUidsToMultiple<U>(availableUids: seq<U>, R: int): (r: Result<seq<U>, PyError>)
    ensures r.Failure? <==> R == 0
    ensures r.Failure? ==> r.error == ZeroDivisionError
    ensures R > 0 ==> (r.Success?
      && |r.value| <= |availableUids|
      && r.value == availableUids[..|r.value|]
      && |r.value| % R == 0
      && |availableUids| - |r.value| < R)
    ensures R < 0 ==> r == Success(availableUids)
  {
    if R == 0 then Failure(ZeroDivisionError)
    else
      var maxCompleteGroups := FloorDiv(|availableUids|, R);
      var adjustedLength := maxCompleteGroups * R;
      if R > 0 then
        assert 0 <= adjustedLength <= |availableUids| by {
          if maxCompleteGroups < 0 { MulAtLeast(-maxCompleteGroups, R); }
        }
        ModOfMultiple(maxCompleteGroups, R);
        Success(Prefix(availableUids, adjustedLength))
      else
        assert adjustedLength >= |availableUids|;
        assert Prefix(availableUids, adjustedLength) == availableUids[..|availableUids|] == availableUids;
        Success(Prefix(availableUids, adjustedLength))
  }

  /** After trimming to a multiple of `R`, the partition has |uids| / R groups of exactly `R` uids. */
  lemma AdjustedPartitionIsExact<U>(availableUids: seq<U>, R: int)
    requires R > 0
    ensures var adjusted := AdjustUidsToMultiple(availableUids, R).value;
      var groups := PartitionUids(adjusted, R).value;
      && |groups| == |availableUids| / R
      && (forall i :: 0 <= i < |groups| ==> |groups[i]| == R)
      && Concat(groups) == availableUids[..|groups| * R]
  {
    var adjusted := AdjustUidsToMultiple(availableUids, R).value;
    var n := |availableUids|;
    var q := |adjusted| / R;
    DivModUnique(|adjusted|, R, q, 0);
    DivModUnique(n, R, q, n - |adjusted|);
  }

  // ---------------------------------------------------------------------------
  // Chunk metadata of a file (pre_process_chunk_distribution_file)
  // ---------------------------------------------------------------------------

  /** Where a chunk starts in the file, how many bytes it reads, and which uid group stores it. */
  datatype ChunkMeta<G> = ChunkMeta(startPos: int, chunkSize: int, uids: G)

  /** `data_size // chunk_size + (1 if data_size % chunk_size != 0 else 0)`. */
  function NumChunks(dataSize: nat, chunkSize: int): (n: int)
    requires chunkSize != 0
    ensures chunkSize > 0 ==> n == CeilDiv(dataSize, chunkSize)
    ensures chunkSize < 0 ==> n <= 0
  {
    var q := FloorDiv(dataSize, chunkSize);
    var m := FloorMod(dataSize, chunkSize);
    if chunkSize > 0 then
      if m == 0 then
        DivModUnique(dataSize + chunkSize - 1, chunkSize, q, chunkSize - 1);
        q
      else
        DivModUnique(dataSize + chunkSize - 1, chunkSize, q + 1, m - 1);
        q + 1
    else
      assert q <= 0 by {
        if q > 0 { MulAtLeast(q, -chunkSize); }
      }
      assert q == 0 ==> m == 0;
      q + (if m != 0 then 1 else 0)
  }

  /** Entry `i` starts at `i * chunk_size`, reads `chunk_size` bytes and is stored by group `i % len(uid_groups)`. */
  ghost predicate MetadataLayout<G>(entries: seq<ChunkMeta<G>>, chunkSize: int, uidGroups: seq<G>)
  {
    forall i :: 0 <= i < |entries| ==>
      |uidGroups| > 0 && entries[i] == ChunkMeta(i * chunkSize, chunkSize, uidGroups[i % |uidGroups|])
  }

  /**
   * The metadata loop of `pre_process_chunk_distribution_file`: one entry per
   * chunk, entry `i` starting at `i * chunk_size` and stored by uid group
   * `i % len(uid_groups)`. A zero chunk size, or a chunk to place with no
   * uid group, raises ZeroDivisionError.
   */
  method PreProcessChunkMetadata<G>(dataSize: nat, chunkSize: int, uidGroups: seq<G>)
    returns (r: Result<seq<ChunkMeta<G>>, PyError>)
    ensures r.Failure? <==> chunkSize == 0 || (chunkSize > 0 && dataSize > 0 && |uidGroups| == 0)
    ensures r.Failure? ==> r.error == ZeroDivisionError
    ensures chunkSize < 0 ==> r == Success([])
    ensures chunkSize > 0 && r.Success? ==> |r.value| == CeilDiv(dataSize, chunkSize)
    ensures r.Success? ==> MetadataLayout(r.value, chunkSize, uidGroups)
  {
    if chunkSize == 0 {
      return Failure(ZeroDivisionError);
    }
    var numChunks := NumChunks(dataSize, chunkSize);
    assert chunkSize > 0 && dataSize > 0 ==> numChunks > 0;
    var chunkMetaData: seq<ChunkMeta<G>> := [];
    var i: nat := 0;
    while i < numChunks
      invariant i <= Max(numChunks, 0)
      invariant |chunkMetaData| == i
      invariant |uidGroups| == 0 ==> i == 0
      invariant MetadataLayout(chunkMetaData, chunkSize, uidGroups)
    {
      if |uidGroups| == 0 {
        return Failure(ZeroDivisionError);
      }
      var startPos := i * chunkSize;
      chunkMetaData := chunkMetaData + [ChunkMeta(startPos, chunkSize, uidGroups[i % |uidGroups|])];
      i := i + 1;
    }
    return Success(chunkMetaData);
  }

  /**
   * The metadata entries address exactly the chunks `chunk_data_generator`
   * yields: entry `k` (start `k * chunk_size`, length `chunk_size`, cut at
   * the end of the data) reads chunk `k`, and there is one entry per chunk.
   */
  lemma MetadataAddressesChunks<T>(data: seq<T>, chunkSize: nat, k: nat)
    requires chunkSize > 0 && k < NumChunks(|data|, chunkSize)
    ensures |Chunks(data, chunkSize)| == NumChunks(|data|, chunkSize)
    ensures k * chunkSize < |data|
    ensures Chunks(data, chunkSize)[k] == data[k * chunkSize .. Min(k * chunkSize + chunkSize, |data|)]
  {
    ChunkAt(data, chunkSize, k);
  }

  // ---------------------------------------------------------------------------
  // Reusing uid groups (compute_chunk_distribution_mut_exclusive_numpy_reuse_uids)
  // ---------------------------------------------------------------------------

  /** `count` groups read cyclically from `initial`. */
  function CyclicGroups<G>(initial: seq<G>, count: nat): seq<G>
    requires |initial| > 0
  {
    seq(count, i requires 0 <= i < count => initial[i % |initial|])
  }

  /** Read cyclically, the first |initial| groups are the initial groups. */
  lemma CyclicPrefix<G>(initial: seq<G>)
    requires |initial| > 0
    ensures CyclicGroups(initial, |initial|) == initial
  {
    forall i | 0 <= i < |initial|
      ensures CyclicGroups(initial, |initial|)[i] == initial[i]
    {
      DivModUnique(i, |initial|, 0, i);
    }
  }

  /** One more group read cyclically is the next group of the cycle. */
  lemma CyclicSnoc<G>(initial: seq<G>, n: nat)
    requires |initial| > 0
    ensures CyclicGroups(initial, n + 1) == CyclicGroups(initial, n) + [initial[n % |initial|]]
  {
  }

  /**
   * The loop that appends groups taken from `cycle(initial_uid_groups)`
   * until there are `total_chunks_needed` of them. The initial groups stay
   * in front and every group appended is the next one of the cycle. With no
   * initial group and more chunks needed the source never terminates, so
   * that input is excluded.
   */
  method ReuseUidGroups<G>(initial: seq<G>, totalChunksNeeded: int) returns (groups: seq<G>)
    requires |initial| > 0 || totalChunksNeeded <= |initial|
    ensures |groups| == Max(|initial|, totalChunksNeeded)
    ensures groups[..|initial|] == initial
    ensures |initial| > 0 ==> groups == CyclicGroups(initial, |groups|)
  {
    groups := initial;
    if |initial| > 0 {
      CyclicPrefix(initial);
    }
    while |groups| < totalChunksNeeded
      invariant |initial| <= |groups| <= Max(|initial|, totalChunksNeeded)
      invariant |groups| < totalChunksNeeded ==> |groups| == |initial|
      invariant groups[..|initial|] == initial
      invariant |initial| > 0 ==> groups == CyclicGroups(initial, |groups|)
      decreases totalChunksNeeded - |groups|
    {
      // for group in cycle(initial_uid_groups)
      var j := 0;
      while |groups| < totalChunksNeeded
        invariant |initial| <= |groups| <= Max(|initial|, totalChunksNeeded)
        invariant |initial| > 0 && j == |groups| % |initial|
        invariant groups[..|initial|] == initial
        invariant groups == CyclicGroups(initial, |groups|)
        decreases totalChunksNeeded - |groups|
      {
        CyclicSnoc(initial, |groups|);
        ModSucc(|groups|, |initial|);
        groups := groups + [initial[j]];
        j := (j + 1) % |initial|;
      }
    }
  }

  /** Pairs of chunk and uid group, as many as the shorter side: Python's `zip`. */
  function Zip<A, B>(a: seq<A>, b: seq<B>): seq<(A, B)>
  {
    seq(Min(|a|, |b|), i requires 0 <= i < Min(|a|, |b|) => (a[i], b[i]))
  }

  /**
   * The (chunk, uid group) pairs the reuse distribution yields as written:
   * `total_chunks_needed` is `data_size // chunk_size`, rounded down.
   */
  function ReuseDistributionAsWritten<T, G>(data: seq<T>, chunkSize: nat, initial: seq<G>): seq<(seq<T>, G)>
    requires chunkSize > 0 && |initial| > 0
  {
    Zip(Chunks(data, chunkSize), CyclicGroups(initial, Max(|initial|, |data| / chunkSize)))
  }

  /**
   * As written, the last chunk is left without a uid group (and `zip` drops
   * it) exactly when it is a partial chunk and there are at least as many
   * full chunks as initial groups.
   */
  lemma TrailingChunkDropped<T, G>(data: seq<T>, chunkSize: nat, initial: seq<G>)
    requires chunkSize > 0 && |initial| > 0
    ensures |ReuseDistributionAsWritten(data, chunkSize, initial)| < |Chunks(data, chunkSize)|
        <==> (|data| % chunkSize != 0 && |data| / chunkSize >= |initial|)
    ensures |ReuseDistributionAsWritten(data, chunkSize, initial)| < |Chunks(data, chunkSize)| ==>
      |ReuseDistributionAsWritten(data, chunkSize, initial)| == |Chunks(data, chunkSize)| - 1
  {
    CeilDivByFloor(|data|, chunkSize);
  }

  /** Three bytes in chunks of two with one uid group: the second chunk `[3]` is never distributed. */
  lemma TrailingChunkDroppedExample()
    ensures Chunks([1, 2, 3], 2) == [[1, 2], [3]]
    ensures ReuseDistributionAsWritten([1, 2, 3], 2, ["g"]) == [([1, 2], "g")]
  {
    assert CeilDiv(3, 2) == 2;
    assert [1, 2, 3][..2] == [1, 2] && [1, 2, 3][2..] == [3];
  }

  /** `total_chunks_needed` rounded up, as the metadata loop counts chunks. */
  function ChunksNeeded(dataSize: nat, chunkSize: nat): nat
    requires chunkSize > 0
  {
    CeilDiv(dataSize, chunkSize)
  }

  /** The reuse distribution with the number of chunks rounded up. */
  function ReuseDistribution<T, G>(data: seq<T>, chunkSize: nat, initial: seq<G>): seq<(seq<T>, G)>
    requires chunkSize > 0 && |initial| > 0
  {
    Zip(Chunks(data, chunkSize), CyclicGroups(initial, Max(|initial|, ChunksNeeded(|data|, chunkSize))))
  }

  /**
   * With the count rounded up every chunk is distributed, in order, and
   * chunk `k` goes to uid group `k % len(initial_uid_groups)`: the group the
   * metadata loop assigns to entry `k`.
   */
  lemma ReuseDistributesEveryChunk<T, G>(data: seq<T>, chunkSize: nat, initial: seq<G>)
    requires chunkSize > 0 && |initial| > 0
    ensures |ReuseDistribution(data, chunkSize, initial)| == |Chunks(data, chunkSize)|
    ensures forall k :: 0 <= k < |Chunks(data, chunkSize)| ==>
      ReuseDistribution(data, chunkSize, initial)[k] == (Chunks(data, chunkSize)[k], initial[k % |initial|])
  {
  }
}
