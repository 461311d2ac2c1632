/**
 * Uid availability and the deterministic part of `get_random_uids` in
 * storage/validator/utils.py: which uids are candidates for a query and how
 * many of them are sampled. The random draws themselves are not modelled.
 */
module UidSelection {
  import opened Wrappers
  import opened PyMath

  /** What the metagraph records for one uid: a serving axon, a validator permit, and the stake. */
  datatype Neuron = Neuron(isServing: bool, validatorPermit: bool, stake: real)

  /** Default `exclude` list of `get_random_uids`. */
  const DEFAULT_EXCLUDE: seq<int> := [8, 9, 10, 11, 12, 13]

  /**
   * `check_uid_availability`: a uid is available when its axon is serving
   * and it does not hold a validator permit with more stake than the limit.
   */
  function CheckUidAvailability(metagraph: seq<Neuron>, uid: nat, vpermitTaoLimit: real): (available: bool)
    requires uid < |metagraph|
    ensures !metagraph[uid].isServing ==> !available
    ensures metagraph[uid].validatorPermit && metagraph[uid].stake > vpermitTaoLimit ==> !available
    ensures metagraph[uid].isServing && (!metagraph[uid].validatorPermit || metagraph[uid].stake <= vpermitTaoLimit)
      ==> available
  {
    if !metagraph[uid].isServing then false
    else if metagraph[uid].validatorPermit then !(metagraph[uid].stake > vpermitTaoLimit)
    else true
  }

  /** `exclude is None or uid not in exclude`. */
  predicate NotExcluded(uid: int, exclude: Option<seq<int>>)
  {
    exclude.None? || uid !in exclude.value
  }

  predicate StrictlyIncreasing(s: seq<nat>)
  {
    forall i, j :: 0 <= i < j < |s| ==> s[i] < s[j]
  }

  /** Every element of `s` is below `bound`. */
  predicate Below(s: seq<nat>, bound: nat)
  {
    forall i :: 0 <= i < |s| ==> s[i] < bound
  }

  /** Appending an element larger than all others keeps the order, with a bound one higher. */
  lemma AppendLarger(s: seq<nat>, x: nat)
    requires StrictlyIncreasing(s) && Below(s, x)
    ensures StrictlyIncreasing(s + [x]) && Below(s + [x], x + 1)
  {
  }

  /** The uid is a candidate: available and not excluded. */
  predicate IsCandidate(metagraph: seq<Neuron>, uid: nat, vpermitTaoLimit: real, exclude: Option<seq<int>>)
  {
    uid < |metagraph| && CheckUidAvailability(metagraph, uid, vpermitTaoLimit) && NotExcluded(uid, exclude)
  }

  /** The uid is available but excluded. */
  predicate IsAvailableExcluded(metagraph: seq<Neuron>, uid: nat, vpermitTaoLimit: real, exclude: Option<seq<int>>)
  {
    uid < |metagraph| && CheckUidAvailability(metagraph, uid, vpermitTaoLimit) && !NotExcluded(uid, exclude)
  }

  /** `[uid for uid in uids if uid not in exclude]`. */
  function WithoutExcluded(uids: seq<nat>, exclude: Option<seq<int>>): seq<nat>
  {
    if uids == [] then []
    else (if NotExcluded(uids[0], exclude) then [uids[0]] else []) + WithoutExcluded(uids[1..], exclude)
  }

  /** Filtering a list of excluded uids leaves nothing. */
  lemma {:induction false} FilterOfExcludedIsEmpty(uids: seq<nat>, exclude: Option<seq<int>>)
    requires forall u :: u in uids ==> !NotExcluded(u, exclude)
    ensures WithoutExcluded(uids, exclude) == []
    decreases |uids|
  {
    if uids != [] {
      assert uids[0] in uids;
      FilterOfExcludedIsEmpty(uids[1..], exclude);
    }
  }

  /**
   * The deterministic part of `get_random_uids(k, exclude)`: the loop over
   * all uids, the supplement step, and the sample size. The candidates are
   * exactly the available uids not excluded, in increasing order; the
   * "available" list collects exactly the available uids that ARE excluded,
   * so the supplement (which drops excluded uids again) never adds one, and
   * an excluded uid is never returned. `k` uids are sampled, or all
   * candidates when there are fewer; a negative `k` adds no supplement and
   * gives a negative sample size.
   */
  method GetRandomUidsPool(metagraph: seq<Neuron>, vpermitTaoLimit: real, k: int, exclude: Option<seq<int>>)
    returns (candidateUids: seq<nat>, availUids: seq<nat>, numToSample: int)
    ensures StrictlyIncreasing(candidateUids) && StrictlyIncreasing(availUids)
    ensures forall uid: nat :: uid in candidateUids <==> IsCandidate(metagraph, uid, vpermitTaoLimit, exclude)
    ensures forall uid: nat :: uid in availUids <==> IsAvailableExcluded(metagraph, uid, vpermitTaoLimit, exclude)
    ensures numToSample == Min(k, |candidateUids|)
  {
    candidateUids, availUids := [], [];
    var uid: nat := 0;
    while uid < |metagraph|
      invariant uid <= |metagraph|
      invariant StrictlyIncreasing(candidateUids) && Below(candidateUids, uid)
      invariant StrictlyIncreasing(availUids) && Below(availUids, uid)
      invariant forall u: nat :: u in candidateUids <==> u < uid && IsCandidate(metagraph, u, vpermitTaoLimit, exclude)
      invariant forall u: nat :: u in availUids <==> u < uid && IsAvailableExcluded(metagraph, u, vpermitTaoLimit, exclude)
    {
      var uidIsAvailable := CheckUidAvailability(metagraph, uid, vpermitTaoLimit);
      var uidIsNotExcluded := exclude.None? || uid !in exclude.value;
      if uidIsAvailable && uidIsNotExcluded {
        AppendLarger(candidateUids, uid);
        candidateUids := candidateUids + [uid];
      } else if uidIsAvailable {
        AppendLarger(availUids, uid);
        availUids := availUids + [uid];
      }
      uid := uid + 1;
    }

    if |candidateUids| < k {
      var additionalUidsNeeded := k - |candidateUids|;
      var filteredAvailUids := WithoutExcluded(availUids, exclude);
      FilterOfExcludedIsEmpty(availUids, exclude);
      // random.sample(filtered_avail_uids, min(needed, len(filtered_avail_uids))):
      // the filtered list is empty, so the sample is empty whatever is drawn
      var sampleSize := Min(additionalUidsNeeded, |filteredAvailUids|);
      candidateUids := candidateUids + filteredAvailUids[..sampleSize];
    }

    numToSample := Min(k, |candidateUids|);
  }

  /**
   * `get_random_uids` called without `exclude`: the default list keeps uids
   * 8 to 13 out of the candidates.
   */
  method GetRandomUidsPoolDefault(metagraph: seq<Neuron>, vpermitTaoLimit: real, k: int)
    returns (candidateUids: seq<nat>, availUids: seq<nat>, numToSample: int)
    ensures forall uid: nat :: uid in candidateUids <==>
      uid < |metagraph| && CheckUidAvailability(metagraph, uid, vpermitTaoLimit) && !(8 <= uid <= 13)
    ensures forall uid: nat :: uid in availUids <==>
      uid < |metagraph| && CheckUidAvailability(metagraph, uid, vpermitTaoLimit) && 8 <= uid <= 13
    ensures numToSample == Min(k, |candidateUids|)
  {
    candidateUids, availUids, numToSample := GetRandomUidsPool(metagraph, vpermitTaoLimit, k, Some(DEFAULT_EXCLUDE));
  }
}
