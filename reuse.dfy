/**
 * `compute_chunk_distribution_mut_exclusive_numpy_reuse_uids` of
 * storage/validator/utils.py up to its uid groups: size the chunks, trim
 * the uids to a multiple of `R`, refuse a redundancy larger than the uids
 * left, partition them, and reuse the groups cyclically until there is one
 * per chunk. As written, a negative `R` gets through every check with no
 * group at all, and the reuse loop then never ends for a file of at least
 * 256 MiB; `ReuseSetup` is the version that refuses a negative `R`.
 */
module Reuse {
  import opened Wrappers
  import opened PyMath
  import opened Chunking
  import opened ChunkSize
  import opened Distribution

  /**
   * One pass of the outer `while` body: `for group in cycle(initial)`
   * appends groups, starting again from the first initial group, until
   * there are `total` of them. A cycle over no group yields nothing.
   */
  function OuterPass<G>(initial: seq<G>, groups: seq<G>, total: int): (r: seq<G>)
    ensures |initial| == 0 ==> r == groups
    ensures |initial| > 0 ==> |r| == Max(|groups|, total)
  {
    if |initial| == 0 then groups
    else groups + seq(Max(total - |groups|, 0), i requires 0 <= i => initial[i % |initial|])
  }

  /** The groups after at most `k` passes of `while len(uid_groups) < total_chunks_needed`. */
  function Passes<G>(initial: seq<G>, groups: seq<G>, total: int, k: nat): (r: seq<G>)
    ensures |groups| <= |r| && r[..|groups|] == groups
    ensures |initial| > 0 && k > 0 ==> |r| == Max(|groups|, total)
    decreases k
  {
    if k == 0 || |groups| >= total then groups
    else Passes(initial, OuterPass(initial, groups, total), total, k - 1)
  }

  /** Over no initial group, no number of passes changes the groups, so the loop guard stays true. */
  lemma {:induction false} EmptyCycleNeverEnds<G>(groups: seq<G>, total: int, k: nat)
    ensures Passes([], groups, total, k) == groups
  {
    if k > 0 && |groups| < total {
      EmptyCycleNeverEnds(OuterPass([], groups, total), total, k - 1);
    }
  }

  /** Over at least one initial group, one pass ends the loop with `max(len(groups), total)` groups. */
  lemma OnePassEnds<G>(initial: seq<G>, groups: seq<G>, total: int)
    requires |initial| > 0
    ensures |Passes(initial, groups, total, 1)| == Max(|groups|, total)
    ensures |Passes(initial, groups, total, 1)| >= total
  {
  }

  /** One pass over at least one initial group yields the groups read cyclically from them. */
  lemma PassIsCyclic<G>(initial: seq<G>, total: int)
    requires |initial| > 0
    ensures Passes(initial, initial, total, 1) == CyclicGroups(initial, Max(|initial|, total))
  {
    var n := |initial|;
    var r := Passes(initial, initial, total, 1);
    var c := CyclicGroups(initial, Max(n, total));
    CyclicPrefix(initial);
    forall i | 0 <= i < |r|
      ensures r[i] == c[i]
    {
      if i < n {
        assert r[i] == r[..n][i] == initial[i];
        assert c[i] == CyclicGroups(initial, n)[i];
      } else {
        var j := i - n;
        DivModUnique(i, n, 1 + j / n, j % n);
      }
    }
  }

  /**
   * Lines 740-754 as written: the chunk size, the initial groups and
   * `total_chunks_needed = data_size // chunk_size`, or the exception raised
   * on the way.
   */
  function ReuseSetupAsWritten<U>(availableUids: seq<U>, dataSize: nat, R: int): (r: Result<(seq<seq<U>>, int), PyError>)
    ensures R == 0 ==> r == Failure(ZeroDivisionError)
    ensures R > |availableUids| ==> r == Failure(ValueError)
    ensures R < 0 ==> r.Success? && r.value.0 == []
    ensures 0 < R <= |availableUids| ==> r.Success? && AreBlocks(r.value.0, availableUids, R)
  {
    var chunkSize := OptimalChunkSize(dataSize, |availableUids|, R, MIN_CHUNK_SIZE, MAX_CHUNK_SIZE);
    if chunkSize.Failure? then Failure(chunkSize.error)
    else
      var adjusted := AdjustUidsToMultiple(availableUids, R);
      if adjusted.Failure? then Failure(ZeroDivisionError)
      else if R > |adjusted.value| then Failure(ValueError)
      else
        var groups := PartitionUids(adjusted.value, R);
        if groups.Failure? then Failure(ValueError)
        else
          if R > 0 then
            PartitionIsBlocks(availableUids, R);
            Success((groups.value, FloorDiv(dataSize, chunkSize.value)))
          else
            Success((groups.value, FloorDiv(dataSize, chunkSize.value)))
  }

  /**
   * As written, a negative `R` passes every check with no uid group, while
   * a file of at least 256 MiB still needs a group: the reuse loop's guard
   * holds forever.
   */
  lemma NegativeRedundancyHangs<U>(availableUids: seq<U>, dataSize: nat, R: int)
    requires R < 0 && dataSize >= MAX_CHUNK_SIZE
    ensures ReuseSetupAsWritten(availableUids, dataSize, R) == Success(([], FloorDiv(dataSize, MAX_CHUNK_SIZE)))
    ensures FloorDiv(dataSize, MAX_CHUNK_SIZE) >= 1
    ensures forall k: nat :: |Passes<seq<U>>([], [], FloorDiv(dataSize, MAX_CHUNK_SIZE), k)| < FloorDiv(dataSize, MAX_CHUNK_SIZE)
  {
    var n := |availableUids|;
    var q := FloorDiv(n, R);
    if q > 0 {
      MulMono(1, q, -R);
      assert false;
    }
    var total := FloorDiv(dataSize, MAX_CHUNK_SIZE);
    forall k: nat
      ensures |Passes<seq<U>>([], [], total, k)| < total
    {
      EmptyCycleNeverEnds<seq<U>>([], total, k);
    }
  }

  /**
   * The setup with the redundancy checked: as written, except that a
   * negative `R` raises ValueError next to `R > len(available_uids)`. A
   * zero `R` still raises ZeroDivisionError in `optimal_chunk_size`.
   */
  function ReuseSetup<U>(availableUids: seq<U>, dataSize: nat, R: int): (r: Result<(seq<seq<U>>, int), PyError>)
    ensures R == 0 ==> r == Failure(ZeroDivisionError)
    ensures R < 0 || R > |availableUids| ==> r == Failure(ValueError)
    ensures r.Success? ==> |r.value.0| > 0
    ensures 0 < R <= |availableUids| ==> r.Success? && AreBlocks(r.value.0, availableUids, R)
  {
    var chunkSize := OptimalChunkSize(dataSize, |availableUids|, R, MIN_CHUNK_SIZE, MAX_CHUNK_SIZE);
    if chunkSize.Failure? then Failure(chunkSize.error)
    else
      var adjusted := AdjustUidsToMultiple(availableUids, R);
      if adjusted.Failure? then Failure(ZeroDivisionError)
      else if R < 0 || R > |adjusted.value| then Failure(ValueError)
      else
        var groups := PartitionUids(adjusted.value, R);
        if groups.Failure? then Failure(ValueError)
        else
          PartitionIsBlocks(availableUids, R);
          Success((groups.value, FloorDiv(dataSize, chunkSize.value)))
  }

  /** Reading blocks cyclically: group `i` is block `i % G`. */
  lemma CyclicBlocks<U>(initial: seq<seq<U>>, uids: seq<U>, R: int, count: nat)
    requires AreBlocks(initial, uids, R) && |initial| > 0
    ensures forall i :: 0 <= i < count ==> IsBlock(CyclicGroups(initial, count)[i], uids, R, i % |initial|)
  {
  }

  /**
   * The uid groups of the reuse distribution, with the redundancy checked:
   * the loop now always ends, with one group per needed chunk (and at least
   * the initial groups), and group `i` is uid block `i % G` of the
   * `G = len(uids) // R` blocks of `R` consecutive uids.
   */
  method ReuseUidGroupsFor<U>(availableUids: seq<U>, dataSize: nat, R: int) returns (r: Result<seq<seq<U>>, PyError>)
    ensures R == 0 ==> r == Failure(ZeroDivisionError)
    ensures R < 0 || R > |availableUids| ==> r == Failure(ValueError)
    ensures 0 < R <= |availableUids| ==> r.Success?
    ensures r.Success? ==> 0 < R <= |availableUids| && |availableUids| / R > 0
    ensures r.Success? ==> |r.value| == Max(|availableUids| / R, ReuseSetup(availableUids, dataSize, R).value.1)
    ensures r.Success? ==> forall i :: 0 <= i < |r.value| ==>
      IsBlock(r.value[i], availableUids, R, i % (|availableUids| / R))
  {
    var setup := ReuseSetup(availableUids, dataSize, R);
    if setup.Failure? {
      return Failure(setup.error);
    }
    var initial := setup.value.0;
    var groups := ReuseUidGroups(initial, setup.value.1);
    CyclicBlocks(initial, availableUids, R, |groups|);
    return Success(groups);
  }
}
