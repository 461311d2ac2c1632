/**
 * The subscription that drives the handler (storage/miner/run.py, the call
 * `substrate.subscribe_block_headers(handler)`): headers are delivered one at
 * a time, in chain order, and the handler is called on each until it returns
 * `True` or raises. A run is modelled as a finite stream of deliveries, each
 * carrying the header, how the outside world behaves during that call and the
 * value of `should_exit` at that time.
 */
module MinerSubscription {
  import opened Wrappers
  import opened MinerHandler

  /** One delivery of the subscription. */
  datatype Event = Event(header: Header, outcomes: Outcomes, shouldExit: bool)

  /** How a run ended: the stream ran out, or the handler at index `at` returned `True` or raised. */
  datatype RunEnd = Exhausted | Stopped(at: nat) | Failed(at: nat, failure: Failure)

  /** The pending state left at the end, every call issued, in order, and how the run ended. */
  datatype Trace = Trace(pending: Pending, calls: seq<ChainCall>, end: RunEnd)

  /** Shift the index of an end by `k` deliveries. */
  function RunEndAfter(k: nat, e: RunEnd): RunEnd
  {
    match e
    case Exhausted => Exhausted
    case Stopped(i) => Stopped(i + k)
    case Failed(i, f) => Failed(i + k, f)
  }

  /** Call the handler on each delivery in turn until it returns `True` or raises. */
  function Run(cfg: Config, p: Pending, events: seq<Event>): (t: Trace)
    ensures t.end.Stopped? || t.end.Failed? ==> t.end.at < |events|
    ensures t.end.Stopped? ==> events[t.end.at].shouldExit
    decreases |events|
  {
    if |events| == 0 then Trace(p, [], Exhausted)
    else
      var s := HandleBlock(cfg, p, events[0].header, events[0].outcomes, events[0].shouldExit);
      match s.result
      case Stop => Trace(s.pending, s.calls, Stopped(0))
      case Raised(f) => Trace(s.pending, s.calls, Failed(0, f))
      case Continue =>
        var t := Run(cfg, s.pending, events[1..]);
        Trace(t.pending, s.calls + t.calls, RunEndAfter(1, t.end))
  }

  /** Every interaction with the outside world during the delivery returns normally. */
  predicate Succeeds(e: Event)
  {
    e.outcomes.retrieveOk && e.outcomes.submit.Submitted? && e.outcomes.statsOk
  }

  /**
   * Once the handler has returned `True` or raised, the subscription is over:
   * headers delivered afterwards are never handled.
   */
  lemma {:induction false} NothingAfterStop(cfg: Config, p: Pending, events: seq<Event>, later: seq<Event>)
    requires !Run(cfg, p, events).end.Exhausted?
    ensures Run(cfg, p, events + later) == Run(cfg, p, events)
    decreases |events|
  {
    var s := HandleBlock(cfg, p, events[0].header, events[0].outcomes, events[0].shouldExit);
    assert (events + later)[0] == events[0];
    if s.result == Continue {
      assert (events + later)[1..] == events[1..] + later;
      NothingAfterStop(cfg, s.pending, events[1..], later);
    }
  }

  /** A run keeps the two captured variables set and cleared together. */
  lemma {:induction false} RunKeepsPaired(cfg: Config, p: Pending, events: seq<Event>)
    requires Paired(p)
    ensures Paired(Run(cfg, p, events).pending)
    decreases |events|
  {
    if |events| > 0 {
      var s := HandleBlock(cfg, p, events[0].header, events[0].outcomes, events[0].shouldExit);
      HandleBlockKeepsPaired(cfg, p, events[0].header, events[0].outcomes, events[0].shouldExit);
      if s.result == Continue {
        RunKeepsPaired(cfg, s.pending, events[1..]);
      }
    }
  }

  /**
   * While no delivered header is an epoch boundary, the handler only looks up
   * pending pairs: it never submits, never refreshes the statistics and never
   * stops the subscription.
   */
  lemma {:induction false} NoSubmissionOffBoundary(cfg: Config, p: Pending, events: seq<Event>)
    requires forall i :: 0 <= i < |events| ==> !IsEpochBoundary(events[i].header.number, cfg.netuid, cfg.tempo)
    ensures forall c :: c in Run(cfg, p, events).calls ==> c.RetrieveExtrinsic?
    ensures !Run(cfg, p, events).end.Stopped?
    decreases |events|
  {
    if |events| > 0 {
      var s := HandleBlock(cfg, p, events[0].header, events[0].outcomes, events[0].shouldExit);
      NonBoundaryIsQuiet(cfg, p, events[0].header, events[0].outcomes, events[0].shouldExit);
      if s.result == Continue {
        NoSubmissionOffBoundary(cfg, s.pending, events[1..]);
      }
    }
  }

  /**
   * If every call returns normally, the subscription stops at the first
   * boundary header delivered while `should_exit` is set.
   */
  lemma {:induction false} StopsAtFirstBoundary(cfg: Config, p: Pending, events: seq<Event>, d: nat)
    requires d < |events|
    requires forall i :: 0 <= i <= d ==> Succeeds(events[i])
    requires forall i :: 0 <= i < d ==>
      !(IsEpochBoundary(events[i].header.number, cfg.netuid, cfg.tempo) && events[i].shouldExit)
    requires IsEpochBoundary(events[d].header.number, cfg.netuid, cfg.tempo) && events[d].shouldExit
    ensures Run(cfg, p, events).end == Stopped(d)
    decreases d
  {
    var e := events[0];
    var s := HandleBlock(cfg, p, e.header, e.outcomes, e.shouldExit);
    StopsOnlyAtBoundary(cfg, p, e.header, e.outcomes, e.shouldExit);
    if d > 0 {
      assert s.result == Continue;
      StopsAtFirstBoundary(cfg, s.pending, events[1..], d - 1);
    }
  }

  /**
   * Termination latency: when consecutive blocks arrive, every call returns
   * normally and `should_exit` is set, the subscription stops within one
   * epoch, at the first boundary block, after at most `tempo + 1` headers.
   */
  lemma StopsWithinOneEpoch(cfg: Config, p: Pending, events: seq<Event>)
    requires |events| > cfg.tempo
    requires forall i :: 0 <= i < |events| ==> events[i].header.number == events[0].header.number + i
    requires forall i :: 0 <= i < |events| ==> Succeeds(events[i]) && events[i].shouldExit
    ensures Run(cfg, p, events).end.Stopped?
    ensures Run(cfg, p, events).end.at == BlocksUntilBoundary(events[0].header.number, cfg.netuid, cfg.tempo)
    ensures Run(cfg, p, events).end.at <= cfg.tempo
  {
    var b := events[0].header.number;
    var d := BlocksUntilBoundary(b, cfg.netuid, cfg.tempo);
    forall i | 0 <= i < d
      ensures !(IsEpochBoundary(events[i].header.number, cfg.netuid, cfg.tempo) && events[i].shouldExit)
    {
      assert b <= events[i].header.number < b + d;
    }
    StopsAtFirstBoundary(cfg, p, events, d);
  }

  function Deliver(number: nat, hash: Hash, o: Outcomes): Event
  {
    Event(Header(number, hash), o, false)
  }

  /**
   * With tempo 99, subnet 0 and uid 5: blocks 0 to 98 issue no call at all;
   * block 99 submits weight 65535 to uid 5, refreshes the statistics and
   * records the pair; block 100 looks that pair up, forgets it, and does not
   * submit.
   */
  lemma EndToEndScenario(prefix: seq<Event>)
    requires |prefix| == 99
    requires forall i :: 0 <= i < 99 ==> prefix[i].header.number == i
    ensures var cfg := Config(0, 99, 5);
      var ok := Outcomes(true, Submitted("0xe99"), true);
      var t := Run(cfg, NoPending, prefix + [Deliver(99, "0xb99", ok), Deliver(100, "0xb100", ok)]);
      && t.end == Exhausted
      && t.pending == NoPending
      && t.calls == [
           SubmitExtrinsic(SetWeights([5], [65535], 0, 1), 100, false, false),
           UpdateStorageStats,
           RetrieveExtrinsic("0xb99", "0xe99")]
  {
    var cfg := Config(0, 99, 5);
    var ok := Outcomes(true, Submitted("0xe99"), true);
    var tail := [Deliver(99, "0xb99", ok), Deliver(100, "0xb100", ok)];
    forall i | 0 <= i < |prefix|
      ensures !IsEpochBoundary(prefix[i].header.number, cfg.netuid, cfg.tempo)
    {
      assert 0 <= prefix[i].header.number < 0 + BlocksUntilBoundary(0, 0, 99) by {
        BoundaryExamples();
      }
    }
    IdleThen(cfg, NoPending, prefix, tail);
    BoundaryExamples();
    var s99 := HandleBlock(cfg, NoPending, tail[0].header, ok, false);
    assert s99 == Step(Pending(Some("0xb99"), Some("0xe99")), Continue,
                       [SelfWeightSubmission(cfg), UpdateStorageStats]);
    var s100 := HandleBlock(cfg, s99.pending, tail[1].header, ok, false);
    assert s100 == Step(NoPending, Continue, [RetrieveExtrinsic("0xb99", "0xe99")]);
    assert tail[1..] == [tail[1]];
    assert Run(cfg, s99.pending, tail[1..]) == Trace(NoPending, s100.calls, Exhausted);
    assert Run(cfg, NoPending, tail) == Trace(NoPending, s99.calls + s100.calls, Exhausted);
  }

  /**
   * Deliveries that find nothing pending and are no boundary leave no trace:
   * a run over them followed by `rest` is the run over `rest`, shifted.
   */
  lemma {:induction false} IdleThen(cfg: Config, p: Pending, idle: seq<Event>, rest: seq<Event>)
    requires !HasPair(p)
    requires forall i :: 0 <= i < |idle| ==> !IsEpochBoundary(idle[i].header.number, cfg.netuid, cfg.tempo)
    ensures var t := Run(cfg, p, rest);
      Run(cfg, p, idle + rest) == Trace(t.pending, t.calls, RunEndAfter(|idle|, t.end))
    decreases |idle|
  {
    var t := Run(cfg, p, rest);
    if |idle| == 0 {
      assert idle + rest == rest;
      assert RunEndAfter(0, t.end) == t.end;
    } else {
      var all := idle + rest;
      assert all[0] == idle[0] && all[1..] == idle[1..] + rest;
      IdleThen(cfg, p, idle[1..], rest);
      assert HandleBlock(cfg, p, idle[0].header, idle[0].outcomes, idle[0].shouldExit) == Step(p, Continue, []);
      RunFirst(cfg, p, all);
      assert RunEndAfter(1, RunEndAfter(|idle| - 1, t.end)) == RunEndAfter(|idle|, t.end);
    }
  }

  /** A delivery on which the handler keeps going is followed by the run over the rest. */
  lemma RunFirst(cfg: Config, p: Pending, events: seq<Event>)
    requires |events| > 0
    requires HandleBlock(cfg, p, events[0].header, events[0].outcomes, events[0].shouldExit).result == Continue
    ensures var s := HandleBlock(cfg, p, events[0].header, events[0].outcomes, events[0].shouldExit);
      var t := Run(cfg, s.pending, events[1..]);
      Run(cfg, p, events) == Trace(t.pending, s.calls + t.calls, RunEndAfter(1, t.end))
  {
  }


  /**
   * With nothing pending and no boundary header, the handler issues no call,
   * records nothing and keeps the subscription going.
   */
  lemma {:induction false} IdleOffBoundary(cfg: Config, p: Pending, events: seq<Event>)
    requires !HasPair(p)
    requires forall i :: 0 <= i < |events| ==> !IsEpochBoundary(events[i].header.number, cfg.netuid, cfg.tempo)
    ensures Run(cfg, p, events) == Trace(p, [], Exhausted)
    decreases |events|
  {
    if |events| > 0 {
      IdleOffBoundary(cfg, p, events[1..]);
    }
  }

  /**
   * A submission that raises escapes the handler and ends the subscription:
   * nothing is recorded and the next boundary is never reached.
   */
  lemma FailedSubmissionEndsRun(cfg: Config, h: Header, shouldExit: bool, later: seq<Event>)
    requires IsEpochBoundary(h.number, cfg.netuid, cfg.tempo)
    ensures var t := Run(cfg, NoPending, [Event(h, Outcomes(true, SubmitRaised, true), shouldExit)] + later);
      t.end == Failed(0, SubmitFailed) && t.pending == NoPending && t.calls == [SelfWeightSubmission(cfg)]
  {
    NothingAfterStop(cfg, NoPending, [Event(h, Outcomes(true, SubmitRaised, true), shouldExit)], later);
  }
}
