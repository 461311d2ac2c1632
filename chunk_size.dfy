/**
 * The chunk-size heuristics of storage/validator/utils.py:
 * `optimal_chunk_size`, `optimal_chunk_size2`, and the clamp that
 * `compute_chunk_distribution` applies before chunking.
 */
module ChunkSize {
  import opened Wrappers
  import opened PyMath
  import Combinations
  import Chunking

  /** 32 MiB. */
  const MIN_CHUNK_SIZE: nat := 32 * 1024 * 1024
  /** 256 MiB. */
  const MAX_CHUNK_SIZE: nat := 256 * 1024 * 1024

  /**
   * `optimal_chunk_size`: split the data over `num_available_uids // R`
   * chunks, then bound the size to `[min_chunk_size, max_chunk_size]`.
   * The source divides with `/` on floats and truncates with `int()`; here
   * that quotient is the floor division of naturals.
   */
  function OptimalChunkSize(dataSize: nat, numAvailableUids: nat, R: int,
                            minChunkSize: int, maxChunkSize: int): (r: Result<int, PyError>)
    ensures r.Failure? <==> R == 0
    ensures r.Failure? ==> r.error == ZeroDivisionError
    ensures r.Success? ==> r.value >= minChunkSize
    ensures r.Success? && minChunkSize <= maxChunkSize ==> r.value <= maxChunkSize
    ensures R != 0 && FloorDiv(numAvailableUids, R) <= 0 ==> r == Success(Max(minChunkSize, maxChunkSize))
  {
    if R == 0 then Failure(ZeroDivisionError)
    else
      var maxChunks := FloorDiv(numAvailableUids, R);
      var idealChunkSize := if maxChunks > 0 then dataSize / maxChunks else maxChunkSize;
      var chunkSize := Max(minChunkSize, Min(idealChunkSize, maxChunkSize));
      Success(chunkSize)
  }

  /**
   * Away from the bounds, `optimal_chunk_size` is the largest size of which
   * `num_available_uids // R` chunks fit in the data.
   */
  lemma OptimalChunkSizeFits(dataSize: nat, numAvailableUids: nat, R: int, minChunkSize: int, maxChunkSize: int)
    requires R != 0 && FloorDiv(numAvailableUids, R) > 0
    requires var m := FloorDiv(numAvailableUids, R);
      minChunkSize * m <= dataSize < (maxChunkSize + 1) * m
    ensures var m := FloorDiv(numAvailableUids, R);
      var c := OptimalChunkSize(dataSize, numAvailableUids, R, minChunkSize, maxChunkSize).value;
      c * m <= dataSize < (c + 1) * m
  {
    IdealWithinBounds(dataSize, FloorDiv(numAvailableUids, R), minChunkSize, maxChunkSize);
  }

  /** When the data lies between `m` chunks of the minimum and of the maximum size, the floor quotient lies in the bounds. */
  lemma IdealWithinBounds(dataSize: nat, m: nat, minChunkSize: int, maxChunkSize: int)
    requires m > 0
    ensures minChunkSize * m <= dataSize < (maxChunkSize + 1) * m ==>
      minChunkSize <= dataSize / m <= maxChunkSize
  {
    var q := dataSize / m;
    if minChunkSize * m <= dataSize < (maxChunkSize + 1) * m {
      if q < minChunkSize {
        MulMono(q + 1, minChunkSize, m);
      }
      if q > maxChunkSize {
        MulMono(maxChunkSize + 1, q, m);
      }
    }
  }

  /**
   * `optimal_chunk_size2`: as many chunks as fit at 32 MiB each, capped by
   * the number of uid combinations; the whole data when that is zero.
   * `math.comb` raises ValueError for a negative `R`.
   */
  function OptimalChunkSize2(dataSize: nat, numAvailableUids: nat, R: int): (r: Result<nat, PyError>)
    ensures r.Failure? <==> R < 0
    ensures r.Failure? ==> r.error == ValueError
    ensures r.Success? ==> r.value <= dataSize
    ensures R >= 0 && (dataSize < MIN_CHUNK_SIZE || R > numAvailableUids) ==> r == Success(dataSize)
    ensures R >= 0 && dataSize >= MIN_CHUNK_SIZE && R <= numAvailableUids ==> r.value >= MIN_CHUNK_SIZE
  {
    if R < 0 then Failure(ValueError)
    else
      var totalCombinations := Combinations.Comb(numAvailableUids, R);
      var maxChunks := Min(dataSize / MIN_CHUNK_SIZE, totalCombinations);
      if maxChunks == 0 then
        Success(dataSize)
      else
        AtLeastMinimum(dataSize, maxChunks);
        Success(dataSize / maxChunks)
  }

  /**
   * With at least 32 MiB of data and `R <= n`, `optimal_chunk_size2` is the
   * largest size of which `min(data_size // 32 MiB, comb(n, R))` chunks fit
   * in the data, and that count is positive.
   */
  lemma OptimalChunkSize2Fits(dataSize: nat, numAvailableUids: nat, R: nat)
    requires dataSize >= MIN_CHUNK_SIZE && R <= numAvailableUids
    ensures var m := Min(dataSize / MIN_CHUNK_SIZE, Combinations.Comb(numAvailableUids, R));
      var c := OptimalChunkSize2(dataSize, numAvailableUids, R).value;
      m > 0 && c * m <= dataSize < (c + 1) * m
  {
    var m := Min(dataSize / MIN_CHUNK_SIZE, Combinations.Comb(numAvailableUids, R));
    DivModUnique(dataSize, m, dataSize / m, dataSize % m);
  }

  /** At most dataSize / 32 MiB chunks are each at least 32 MiB. */
  lemma AtLeastMinimum(dataSize: nat, m: nat)
    requires 0 < m <= dataSize / MIN_CHUNK_SIZE
    ensures MIN_CHUNK_SIZE <= dataSize / m <= dataSize
  {
    var q := dataSize / m;
    MulMono(m, dataSize / MIN_CHUNK_SIZE, MIN_CHUNK_SIZE);
    if q < MIN_CHUNK_SIZE {
      MulMono(q + 1, MIN_CHUNK_SIZE, m);
    }
    MulMono(1, m, q);
  }

  /** `if chunk_size > data_size: chunk_size = data_size`. */
  function ClampToDataSize(chunkSize: int, dataSize: nat): int
  {
    if chunkSize > dataSize then dataSize else chunkSize
  }

  /**
   * The chunk size `compute_chunk_distribution` chunks with: at most the
   * data size, and positive exactly when the data is non-empty (given a
   * positive minimum). Chunking then yields ceil(len(data) / size) chunks,
   * but empty data gives size 0, and `chunk_data_generator` raises
   * ValueError.
   */
  lemma ClampedChunkSize<T>(data: seq<T>, numAvailableUids: nat, R: int, minChunkSize: int, maxChunkSize: int)
    requires R != 0 && 0 < minChunkSize
    ensures var size := ClampToDataSize(OptimalChunkSize(|data|, numAvailableUids, R, minChunkSize, maxChunkSize).value, |data|);
      && size <= |data|
      && (size > 0 <==> |data| > 0)
      && (minChunkSize <= |data| && minChunkSize <= maxChunkSize ==> minChunkSize <= size)
      && (|data| == 0 ==> Chunking.ChunkDataGenerator(data, size) == Failure(ValueError))
      && (|data| > 0 ==> (Chunking.ChunkDataGenerator(data, size).Success?
            && |Chunking.ChunkDataGenerator(data, size).value| == CeilDiv(|data|, size)))
  {
  }
}
