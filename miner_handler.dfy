/**
 * The miner's block-header handler (storage/miner/run.py, `handler` inside
 * `run`). Each new block header drives one call: first the submission left
 * pending by an earlier call is looked up on chain and forgotten, then, on an
 * epoch boundary, a self-weight extrinsic is composed, signed and submitted,
 * the new pending pair is recorded and the storage statistics are refreshed.
 *
 * Every chain interaction is an input outcome: whether the lookup returned or
 * raised, whether the submission returned an extrinsic hash or raised, and
 * whether the statistics refresh returned or raised. The calls the handler
 * issues are recorded in a log.
 */
module MinerHandler {
  import opened Wrappers
  import opened PyMath

  /** Block hashes and extrinsic hashes are hex strings. */
  type Hash = string

  /** The weight the miner gives itself: the largest u16 value. */
  const SELF_WEIGHT: nat := 65535
  /** `version_key` of the set_weights call. */
  const VERSION_KEY: nat := 1
  /** Number of blocks the signed extrinsic stays valid (its era period). */
  const ERA_PERIOD: nat := 100

  /** The two header fields the handler reads: `header.number` and `header.hash`. */
  datatype Header = Header(number: nat, hash: Hash)

  /** Parameters of the `SubtensorModule.set_weights` call. */
  datatype SetWeights = SetWeights(dests: seq<nat>, weights: seq<nat>, netuid: nat, versionKey: nat)

  /** A call the handler issues to the chain client or to its collaborators. */
  datatype ChainCall =
    | RetrieveExtrinsic(blockHash: Hash, extrinsicHash: Hash)
    | SubmitExtrinsic(call: SetWeights, eraPeriod: nat, waitForInclusion: bool, waitForFinalization: bool)
    | UpdateStorageStats

  /** What composing, signing and submitting the extrinsic produced. */
  datatype SubmitOutcome = Submitted(extrinsicHash: Hash) | SubmitRaised

  /** The behaviour of the outside world during one call. */
  datatype Outcomes = Outcomes(retrieveOk: bool, submit: SubmitOutcome, statsOk: bool)

  /** Which call raised the exception that escapes the handler. */
  datatype Failure = RetrieveFailed | SubmitFailed | StatsFailed

  /**
   * What the handler gives back to the subscription: `None` (keep going),
   * `True` (stop the subscription) or an exception that escapes it.
   */
  datatype HandlerResult = Continue | Stop | Raised(failure: Failure)

  /** The captured variables `last_block_hash_submitted` and `last_extrinsic_hash`. */
  datatype Pending = Pending(blockHash: Option<Hash>, extrinsicHash: Option<Hash>)

  /** Fixed before the subscription starts: `netuid`, `tempo` and the miner's own uid. */
  datatype Config = Config(netuid: nat, tempo: nat, mySubnetUid: nat)

  /** The effect of one handler call: the new pending state, its result and the calls issued, in order. */
  datatype Step = Step(pending: Pending, result: HandlerResult, calls: seq<ChainCall>)

  const NoPending: Pending := Pending(None, None)

  /** A submitted pair is waiting to be looked up: both captured variables are set. */
  predicate HasPair(p: Pending)
  {
    p.blockHash.Some? && p.extrinsicHash.Some?
  }

  /** The two captured variables are set and cleared together. */
  predicate Paired(p: Pending)
  {
    p.blockHash.None? <==> p.extrinsicHash.None?
  }

  /** The epoch-boundary rule of the handler. */
  predicate IsEpochBoundary(block: nat, netuid: nat, tempo: nat)
  {
    (block + netuid + 1) % (tempo + 1) == 0
  }

  /** The self-weight submission the handler issues at a boundary. */
  function SelfWeightSubmission(cfg: Config): ChainCall
  {
    SubmitExtrinsic(SetWeights([cfg.mySubnetUid], [SELF_WEIGHT], cfg.netuid, VERSION_KEY), ERA_PERIOD, false, false)
  }

  /** One call of the handler on header `h`, from pending state `p`. */
  function HandleBlock(cfg: Config, p: Pending, h: Header, o: Outcomes, shouldExit: bool): (r: Step)
    ensures r.result.Stop? ==> IsEpochBoundary(h.number, cfg.netuid, cfg.tempo) && shouldExit
    ensures HasPair(p) ==> |r.calls| > 0 && r.calls[0] == RetrieveExtrinsic(p.blockHash.value, p.extrinsicHash.value)
    ensures |r.calls| <= 3
  {
    var reconcile := if HasPair(p) then [RetrieveExtrinsic(p.blockHash.value, p.extrinsicHash.value)] else [];
    if HasPair(p) && !o.retrieveOk then
      // the lookup raised before the two variables were cleared
      Step(p, Raised(RetrieveFailed), reconcile)
    else
      var cleared := if HasPair(p) then NoPending else p;
      if !IsEpochBoundary(h.number, cfg.netuid, cfg.tempo) then
        Step(cleared, Continue, reconcile)
      else
        var submitted := reconcile + [SelfWeightSubmission(cfg)];
        match o.submit
        case SubmitRaised =>
          Step(cleared, Raised(SubmitFailed), submitted)
        case Submitted(extrinsicHash) =>
          var recorded := Pending(Some(h.hash), Some(extrinsicHash));
          if !o.statsOk then
            Step(recorded, Raised(StatsFailed), submitted + [UpdateStorageStats])
          else
            Step(recorded, if shouldExit then Stop else Continue, submitted + [UpdateStorageStats])
  }

  // ---------------------------------------------------------------------------
  // Properties of one handler call
  // ---------------------------------------------------------------------------

  /**
   * A call submits exactly when its block is an epoch boundary and the lookup
   * of the earlier submission (if there was one) did not raise; it then
   * submits exactly once, and always the self-weight call.
   */
  lemma SubmitsIffBoundary(cfg: Config, p: Pending, h: Header, o: Outcomes, shouldExit: bool)
    ensures var s := HandleBlock(cfg, p, h, o, shouldExit);
      (SelfWeightSubmission(cfg) in s.calls)
      <==> (IsEpochBoundary(h.number, cfg.netuid, cfg.tempo) && (!HasPair(p) || o.retrieveOk))
    ensures var s := HandleBlock(cfg, p, h, o, shouldExit);
      forall i, j :: 0 <= i < j < |s.calls| ==> !(s.calls[i].SubmitExtrinsic? && s.calls[j].SubmitExtrinsic?)
    ensures var s := HandleBlock(cfg, p, h, o, shouldExit);
      forall c :: c in s.calls && c.SubmitExtrinsic? ==> c == SelfWeightSubmission(cfg)
  {
  }

  /**
   * The submitted call sets weight 65535 on the miner's own uid only, on the
   * configured subnet, with version key 1, an era period of 100 blocks and no
   * waiting for inclusion or finalization.
   */
  lemma SubmissionParameters(cfg: Config, p: Pending, h: Header, o: Outcomes, shouldExit: bool, c: ChainCall)
    requires c in HandleBlock(cfg, p, h, o, shouldExit).calls && c.SubmitExtrinsic?
    ensures c.call.dests == [cfg.mySubnetUid] && c.call.weights == [65535]
    ensures c.call.netuid == cfg.netuid && c.call.versionKey == 1
    ensures c.eraPeriod == 100 && !c.waitForInclusion && !c.waitForFinalization
  {
  }

  /**
   * Off an epoch boundary the handler never submits, never records a pending
   * pair, never refreshes the statistics and never stops the subscription:
   * it only looks up and forgets the pending pair, if there is one.
   */
  lemma NonBoundaryIsQuiet(cfg: Config, p: Pending, h: Header, o: Outcomes, shouldExit: bool)
    requires !IsEpochBoundary(h.number, cfg.netuid, cfg.tempo)
    ensures var s := HandleBlock(cfg, p, h, o, shouldExit);
      && (forall c :: c in s.calls ==> c.RetrieveExtrinsic?)
      && s.result != Stop
      && (s.pending == p || s.pending == NoPending)
      && (s.result == Continue <==> (!HasPair(p) || o.retrieveOk))
  {
  }

  /**
   * When a pair is pending, the call starts by looking up exactly that pair;
   * unless the lookup raises, the pair is then forgotten, so after a call off
   * the boundary nothing is pending.
   */
  lemma ReconcileUsesStoredPair(cfg: Config, p: Pending, h: Header, o: Outcomes, shouldExit: bool)
    requires HasPair(p)
    ensures var s := HandleBlock(cfg, p, h, o, shouldExit);
      |s.calls| > 0 && s.calls[0] == RetrieveExtrinsic(p.blockHash.value, p.extrinsicHash.value)
    ensures var s := HandleBlock(cfg, p, h, o, shouldExit);
      o.retrieveOk && !IsEpochBoundary(h.number, cfg.netuid, cfg.tempo) ==> s.pending == NoPending
    ensures var s := HandleBlock(cfg, p, h, o, shouldExit);
      !o.retrieveOk ==> s.pending == p && s.result == Raised(RetrieveFailed) && |s.calls| == 1
  {
  }

  /**
   * A new pair is recorded only by a boundary call whose submission returned,
   * and it is (this header's hash, the returned extrinsic hash). Any pair
   * pending before was looked up earlier in the same call, before the
   * submission: at most one pair is ever pending.
   */
  lemma RecordsOnlyAfterReconcile(cfg: Config, p: Pending, h: Header, o: Outcomes, shouldExit: bool)
    ensures var s := HandleBlock(cfg, p, h, o, shouldExit);
      HasPair(s.pending) && s.pending != p
      <==> (IsEpochBoundary(h.number, cfg.netuid, cfg.tempo) && (!HasPair(p) || o.retrieveOk)
            && o.submit.Submitted? && Pending(Some(h.hash), Some(o.submit.extrinsicHash)) != p)
    ensures var s := HandleBlock(cfg, p, h, o, shouldExit);
      SelfWeightSubmission(cfg) in s.calls && o.submit.Submitted? ==>
        s.pending == Pending(Some(h.hash), Some(o.submit.extrinsicHash))
    ensures var s := HandleBlock(cfg, p, h, o, shouldExit);
      HasPair(p) && SelfWeightSubmission(cfg) in s.calls ==>
        s.calls[0] == RetrieveExtrinsic(p.blockHash.value, p.extrinsicHash.value)
        && s.calls[1] == SelfWeightSubmission(cfg)
  {
  }

  /**
   * A submission that raises records no pair: the handler ends with nothing
   * pending (the earlier pair was already forgotten), without refreshing the
   * statistics and without stopping.
   */
  lemma FailedSubmissionRecordsNothing(cfg: Config, p: Pending, h: Header, o: Outcomes, shouldExit: bool)
    requires Paired(p)
    requires IsEpochBoundary(h.number, cfg.netuid, cfg.tempo) && (!HasPair(p) || o.retrieveOk)
    requires o.submit == SubmitRaised
    ensures var s := HandleBlock(cfg, p, h, o, shouldExit);
      s.pending == NoPending && s.result == Raised(SubmitFailed) && UpdateStorageStats !in s.calls
  {
  }

  /**
   * The handler stops the subscription only on a boundary call whose lookup,
   * submission and statistics refresh all returned, and then exactly when
   * `should_exit` is set; the refresh comes last among the calls issued.
   */
  lemma StopsOnlyAtBoundary(cfg: Config, p: Pending, h: Header, o: Outcomes, shouldExit: bool)
    ensures var s := HandleBlock(cfg, p, h, o, shouldExit);
      s.result == Stop
      <==> (IsEpochBoundary(h.number, cfg.netuid, cfg.tempo) && (!HasPair(p) || o.retrieveOk)
            && o.submit.Submitted? && o.statsOk && shouldExit)
    ensures var s := HandleBlock(cfg, p, h, o, shouldExit);
      s.result == Stop ==> |s.calls| > 0 && s.calls[|s.calls| - 1] == UpdateStorageStats
  {
  }

  /** Every call keeps the two captured variables set and cleared together. */
  lemma HandleBlockKeepsPaired(cfg: Config, p: Pending, h: Header, o: Outcomes, shouldExit: bool)
    requires Paired(p)
    ensures Paired(HandleBlock(cfg, p, h, o, shouldExit).pending)
  {
  }

  /**
   * The pair recorded by a call is looked up by the very next call, using the
   * block hash of the header and the extrinsic hash the submission returned.
   */
  lemma ReconcileOnNextCall(cfg: Config, p: Pending, h: Header, o: Outcomes, shouldExit: bool,
                            h': Header, o': Outcomes, shouldExit': bool)
    requires HandleBlock(cfg, p, h, o, shouldExit).result == Continue
    requires SelfWeightSubmission(cfg) in HandleBlock(cfg, p, h, o, shouldExit).calls
    ensures var s := HandleBlock(cfg, p, h, o, shouldExit);
      o.submit.Submitted?
      && HandleBlock(cfg, s.pending, h', o', shouldExit').calls[0]
         == RetrieveExtrinsic(h.hash, o.submit.extrinsicHash)
  {
  }

  // ---------------------------------------------------------------------------
  // The boundary rule
  // ---------------------------------------------------------------------------

  /**
   * From any block, the next epoch boundary is at most `tempo` blocks away,
   * and no block before it is a boundary.
   */
  function BlocksUntilBoundary(block: nat, netuid: nat, tempo: nat): (d: nat)
    ensures d <= tempo
    ensures IsEpochBoundary(block + d, netuid, tempo)
    ensures forall b :: block <= b < block + d ==> !IsEpochBoundary(b, netuid, tempo)
  {
    var m := (block + netuid + 1) % (tempo + 1);
    var d := if m == 0 then 0 else tempo + 1 - m;
    BoundaryAfter(block + netuid + 1, tempo + 1, d);
    d
  }

  /** Adding `d` to `x` reaches the next multiple of `n` and passes none before it. */
  lemma BoundaryAfter(x: nat, n: nat, d: nat)
    requires n > 0 && d == (if x % n == 0 then 0 else n - x % n)
    ensures (x + d) % n == 0
    ensures forall y :: x <= y < x + d ==> y % n != 0
  {
    var q := x / n;
    var r := x % n;
    if r != 0 {
      DivModUnique(x + d, n, q + 1, 0);
      forall y | x <= y < x + d
        ensures y % n != 0
      {
        DivModUnique(y, n, q, r + (y - x));
      }
    }
  }

  /** The examples of the boundary rule: subnet 0 and 1 with tempo 99. */
  lemma BoundaryExamples()
    ensures IsEpochBoundary(99, 0, 99) && !IsEpochBoundary(100, 0, 99)
    ensures IsEpochBoundary(98, 1, 99) && !IsEpochBoundary(97, 1, 99)
    ensures BlocksUntilBoundary(0, 0, 99) == 99
  {
  }

  // ---------------------------------------------------------------------------
  // The handler as an object: the captured variables become fields
  // ---------------------------------------------------------------------------

  class BlockHandler {
    const netuid: nat
    /** Read once from the chain before subscribing, never re-read. */
    const tempo: nat
    const mySubnetUid: nat
    var lastBlockHashSubmitted: Option<Hash>
    var lastExtrinsicHash: Option<Hash>
    /** The calls issued so far, in order. */
    ghost var log: seq<ChainCall>

    ghost predicate Valid()
      reads this
    {
      Paired(Pending(lastBlockHashSubmitted, lastExtrinsicHash))
    }

    function Cfg(): Config
    {
      Config(netuid, tempo, mySubnetUid)
    }

    function PendingState(): Pending
      reads this
    {
      Pending(lastBlockHashSubmitted, lastExtrinsicHash)
    }

    /** `tempo` as queried before the subscription starts; nothing pending, nothing issued. */
    constructor (netuid: nat, tempo: nat, mySubnetUid: nat)
      ensures Valid()
      ensures this.netuid == netuid && this.tempo == tempo && this.mySubnetUid == mySubnetUid
      ensures lastBlockHashSubmitted == None && lastExtrinsicHash == None
      ensures log == []
    {
      this.netuid := netuid;
      this.tempo := tempo;
      this.mySubnetUid := mySubnetUid;
      lastBlockHashSubmitted := None;
      lastExtrinsicHash := None;
      log := [];
    }

    /** One call of the handler for `header`. */
    method OnBlock(header: Header, retrieveOk: bool, submitResult: SubmitOutcome, statsOk: bool, shouldExit: bool)
      returns (result: HandlerResult)
      requires Valid()
      modifies this
      ensures Valid()
      ensures var s := HandleBlock(Cfg(), old(PendingState()), header,
                                   Outcomes(retrieveOk, submitResult, statsOk), shouldExit);
        PendingState() == s.pending && result == s.result && log == old(log) + s.calls
    {
      if lastExtrinsicHash != None && lastBlockHashSubmitted != None {
        log := log + [RetrieveExtrinsic(lastBlockHashSubmitted.value, lastExtrinsicHash.value)];
        if !retrieveOk {
          return Raised(RetrieveFailed);
        }
        lastBlockHashSubmitted := None;
        lastExtrinsicHash := None;
      }

      if (header.number + netuid + 1) % (tempo + 1) == 0 {
        log := log + [SubmitExtrinsic(SetWeights([mySubnetUid], [SELF_WEIGHT], netuid, VERSION_KEY),
                                      ERA_PERIOD, false, false)];
        if submitResult.SubmitRaised? {
          return Raised(SubmitFailed);
        }
        lastBlockHashSubmitted := Some(header.hash);
        lastExtrinsicHash := Some(submitResult.extrinsicHash);

        log := log + [UpdateStorageStats];
        if !statsOk {
          return Raised(StatsFailed);
        }
        if shouldExit {
          return Stop;
        }
      }
      return Continue;
    }
  }
}
