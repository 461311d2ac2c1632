/**
 * `pre_process_chunk_distribution_file` of storage/validator/utils.py as a
 * whole: size the chunks, trim the uids to a multiple of `R`, refuse a
 * redundancy larger than the uids left, split them into groups of `R`, and
 * build the metadata of every chunk. The uids (from `get_query_miners`) and
 * the file size are inputs.
 */
module Distribution {
  import opened Wrappers
  import opened PyMath
  import opened Chunking
  import opened ChunkSize

  /** Uids `[g * R, g * R + R)`: the `g`-th block of `R` consecutive uids. */
  function Block<U>(uids: seq<U>, R: nat, g: nat): seq<U>
    requires (g + 1) * R <= |uids|
  {
    uids[g * R .. g * R + R]
  }

  /** `b` is block `g` of `uids`, the uids `[g * R, g * R + R)`. */
  ghost predicate IsBlock<U>(b: seq<U>, uids: seq<U>, R: nat, g: nat)
  {
    (g + 1) * R <= |uids| && b == Block(uids, R, g)
  }

  /** Group `g` of `groups` is block `g` of `uids`, for every group. */
  ghost predicate BlocksFrom<U>(groups: seq<seq<U>>, uids: seq<U>, R: nat)
  {
    forall g :: 0 <= g < |groups| ==> IsBlock(groups[g], uids, R, g)
  }

  /** `groups` are the consecutive blocks of `R` uids, `len(uids) // R` of them. */
  ghost predicate AreBlocks<U>(groups: seq<seq<U>>, uids: seq<U>, R: int)
  {
    && R > 0
    && |groups| == |uids| / R
    && BlocksFrom(groups, uids, R)
  }

  /** Entry `i` is stored by block `i % G` of `R` uids, with `G = len(uids) // R` blocks. */
  ghost predicate StoredByBlocks<U>(entries: seq<ChunkMeta<seq<U>>>, uids: seq<U>, R: int)
  {
    && R > 0
    && |uids| / R > 0
    && forall i :: 0 <= i < |entries| ==> IsBlock(entries[i].uids, uids, R, i % (|uids| / R))
  }

  /** Slice `[g * R, g * R + R)` of a prefix `p` of `s` is block `g` of `s`. */
  lemma BlockOfPrefixAt<U>(s: seq<U>, p: seq<U>, R: nat, g: nat, chunk: seq<U>)
    requires |p| <= |s| && p == s[..|p|]
    requires g * R + R <= |p| && chunk == p[g * R .. g * R + R]
    ensures IsBlock(chunk, s, R, g)
  {
    var start := g * R;
    assert (g + 1) * R == start + R;
    assert p[start..start + R] == s[start..start + R];
  }

  /** The exact chunks of a prefix `p` of `s` are blocks of `R` consecutive elements of `s`. */
  lemma BlocksOfPrefix<U>(s: seq<U>, p: seq<U>, R: nat)
    requires R > 0 && |p| <= |s| && |p| % R == 0 && p == s[..|p|]
    ensures BlocksFrom(Chunks(p, R), s, R)
  {
    var chunks := Chunks(p, R);
    forall g | 0 <= g < |chunks|
      ensures IsBlock(chunks[g], s, R, g)
    {
      ExactChunkAt(p, R, g);
      BlockOfPrefixAt(s, p, R, g, chunks[g]);
    }
  }

  /** The trimmed partition is the list of blocks of `R` consecutive uids. */
  lemma PartitionIsBlocks<U>(availableUids: seq<U>, R: int)
    requires 0 < R <= |availableUids|
    ensures AreBlocks(PartitionUids(AdjustUidsToMultiple(availableUids, R).value, R).value, availableUids, R)
    ensures |availableUids| / R > 0
  {
    var adjusted := AdjustUidsToMultiple(availableUids, R).value;
    var groups := PartitionUids(adjusted, R).value;
    assert groups == Chunks(adjusted, R);
    AdjustedPartitionIsExact(availableUids, R);
    DivAtLeastOne(|availableUids|, R);
    BlocksOfPrefix(availableUids, adjusted, R);
  }

  /** Entries that take groups cyclically from a list of blocks are stored by blocks. */
  lemma EntriesUseBlocks<U>(availableUids: seq<U>, R: int, c: int, groups: seq<seq<U>>, entries: seq<ChunkMeta<seq<U>>>)
    requires AreBlocks(groups, availableUids, R) && |groups| > 0
    requires MetadataLayout(entries, c, groups)
    ensures StoredByBlocks(entries, availableUids, R)
  {
    forall i | 0 <= i < |entries|
      ensures IsBlock(entries[i].uids, availableUids, R, i % |groups|)
    {
      assert entries[i].uids == groups[i % |groups|];
    }
  }

  /**
   * The uid half of `pre_process_chunk_distribution_file`: trim the uids to
   * a multiple of `R`, refuse a redundancy larger than the uids left, and
   * split them into groups of `R`. For `0 < R <= len(uids)` the groups are
   * the `len(uids) // R` blocks of `R` consecutive uids.
   */
  method TrimAndPartition<U>(availableUids: seq<U>, R: int) returns (r: Result<seq<seq<U>>, PyError>)
    ensures R == 0 ==> r == Failure(ZeroDivisionError)
    ensures R > |availableUids| ==> r == Failure(ValueError)
    ensures R < 0 ==> r == Success([])
    ensures 0 < R <= |availableUids| ==> r.Success? && |r.value| > 0 && AreBlocks(r.value, availableUids, R)
  {
    var adjusted := AdjustUidsToMultiple(availableUids, R);
    if adjusted.Failure? {
      return Failure(adjusted.error);
    }
    if R > |adjusted.value| {
      return Failure(ValueError);
    }
    var uidGroups := PartitionUids(adjusted.value, R).value;
    if R > 0 {
      PartitionIsBlocks(availableUids, R);
    }
    return Success(uidGroups);
  }

  /**
   * The chunk metadata of a file of `dataSize` bytes stored with redundancy
   * `R`. A zero `R` raises ZeroDivisionError (in `optimal_chunk_size`); a
   * positive `R` larger than the number of uids raises ValueError. Otherwise
   * there is one entry per chunk of `optimal_chunk_size` bytes (which lies
   * between 32 MiB and 256 MiB), and entry `i` is stored by the uids of block
   * `i % G` of the list, `G = len(available_uids) // R` blocks of `R` each.
   * A negative `R` leaves no uid group, so any non-empty file raises
   * ZeroDivisionError in the metadata loop.
   */
  method PreProcessChunkDistribution<U>(availableUids: seq<U>, dataSize: nat, R: int)
    returns (r: Result<seq<ChunkMeta<seq<U>>>, PyError>)
    ensures R == 0 ==> r == Failure(ZeroDivisionError)
    ensures R > |availableUids| ==> r == Failure(ValueError)
    ensures R < 0 ==> r == (if dataSize > 0 then Failure(ZeroDivisionError) else Success([]))
    ensures 0 < R <= |availableUids| ==>
      var c := OptimalChunkSize(dataSize, |availableUids|, R, MIN_CHUNK_SIZE, MAX_CHUNK_SIZE).value;
      && MIN_CHUNK_SIZE <= c <= MAX_CHUNK_SIZE
      && r.Success?
      && |r.value| == CeilDiv(dataSize, c)
      && (forall i :: 0 <= i < |r.value| ==> r.value[i].startPos == i * c && r.value[i].chunkSize == c)
      && StoredByBlocks(r.value, availableUids, R)
  {
    var chunkSize := OptimalChunkSize(dataSize, |availableUids|, R, MIN_CHUNK_SIZE, MAX_CHUNK_SIZE);
    if chunkSize.Failure? {
      return Failure(chunkSize.error);
    }
    var uidGroups := TrimAndPartition(availableUids, R);
    if uidGroups.Failure? {
      return Failure(uidGroups.error);
    }
    r := PreProcessChunkMetadata(dataSize, chunkSize.value, uidGroups.value);
    if R > 0 {
      EntriesUseBlocks(availableUids, R, chunkSize.value, uidGroups.value, r.value);
    }
  }
}
