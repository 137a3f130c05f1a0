/** When a stage of the interval calibration passes, and what one observation makes of it, in both directions. */
module Calibration {
  import opened Options
  import opened Percentiles
  import opened AutoPoll
  import opened Sequences

  // ----- When evidence passes -----

  function Positions(samples: seq<Sample>, counted: Outcome -> bool): set<nat> {
    set i: nat | i < |samples| && counted(samples[i].outcome)
  }

  lemma {:induction false} TallyCounts(samples: seq<Sample>, counted: Outcome -> bool)
    ensures Tally(samples, counted) == |Positions(samples, counted)|
  {
    if samples != [] {
      TallyCounts(Init(samples), counted);
      var before, n := Positions(Init(samples), counted), |samples| - 1;
      assert Positions(samples, counted) == before + if counted(samples[n].outcome) then {n} else {};
      assert n !in before;
    }
  }

  lemma RateBelow(part: nat, whole: nat, bound: real)
    requires whole > 0
    ensures Rate(part, whole) < bound <==> (part as real) < bound * whole as real
    ensures Rate(part, whole) > bound <==> part as real > bound * whole as real
  {
    var q, w := Rate(part, whole), whole as real;
    assert q * w == part as real;
    if q < bound {
      assert (bound - q) * w > 0.0;
    } else if q > bound {
      assert (q - bound) * w > 0.0;
    }
  }

  lemma {:induction false} MaxBusAttained(samples: seq<Sample>)
    ensures MaxBus(samples).Some? ==> exists i :: 0 <= i < |samples| && samples[i].outcome.bus == MaxBus(samples)
  {
    if samples != [] {
      MaxBusAttained(Init(samples));
      if MaxBus(Init(samples)).Some? {
        var i :| 0 <= i < |Init(samples)| && Init(samples)[i].outcome.bus == MaxBus(Init(samples));
        assert samples[i] == Init(samples)[i];
      }
      assert samples[|samples| - 1] == Last(samples);
    }
  }

  /** The slowest 95th percentile, in milliseconds, that leaves the headroom asked for. */
  function Headroom(interval: real, t: Thresholds): real {
    interval * 1000.0 * t.maxP95Ratio
  }

  /** The five conditions on the polls of a stage, without division. */
  ghost predicate GoodEnough(interval: real, samples: seq<Sample>, t: Thresholds) {
    var n := |samples| as real;
    var requests := Total(samples, (o: Outcome) => o.requests);
    && samples != []
    && |Positions(samples, (o: Outcome) => o.success)| as real >= t.minSuccess * n
    && Percentile(Latencies(samples), 0.95).value <= Headroom(interval, t)
    && |Positions(samples, (o: Outcome) => o.missed)| as real <= t.maxMiss * n
    && (if requests == 0 then 0.0 <= t.maxFailure
        else Total(samples, (o: Outcome) => o.failed) as real <= t.maxFailure * requests as real)
    && (forall i :: 0 <= i < |samples| && samples[i].outcome.bus.Some? ==> samples[i].outcome.bus.value <= t.maxBus)
  }

  /** A stage passes exactly under these conditions. */
  lemma PassExactly(interval: real, samples: seq<Sample>, t: Thresholds)
    ensures Passes(interval, samples, t) <==> GoodEnough(interval, samples, t)
  {
    hide Percentile, Tally, Total, MaxBus, Rate, Positions;
    TallyCounts(samples, (o: Outcome) => o.success);
    TallyCounts(samples, (o: Outcome) => o.missed);
    var requests := Total(samples, (o: Outcome) => o.requests);
    BusAtMost(samples);
    MaxBusAttained(samples);
    if samples != [] {
      RateBelow(Tally(samples, (o: Outcome) => o.success), |samples|, t.minSuccess);
      RateBelow(Tally(samples, (o: Outcome) => o.missed), |samples|, t.maxMiss);
    }
    if requests > 0 {
      RateBelow(Total(samples, (o: Outcome) => o.failed), requests, t.maxFailure);
    } else {
      NoRate(Total(samples, (o: Outcome) => o.failed));
    }
  }

  lemma NoRate(part: nat)
    ensures Rate(part, 0) == 0.0
  {
  }

  /** Polls that all succeed in time, without a failed request or an overloaded bus, pass. */
  lemma CleanEvidencePasses(interval: real, samples: seq<Sample>, t: Thresholds)
    requires samples != [] && t.minSuccess <= 1.0 && 0.0 <= t.maxMiss && 0.0 <= t.maxFailure
    requires forall i :: 0 <= i < |samples| ==>
      var o := samples[i].outcome;
      && o.success && !o.missed && o.failed == 0 && o.latency <= Headroom(interval, t)
      && (o.bus.Some? ==> o.bus.value <= t.maxBus)
    ensures Passes(interval, samples, t)
  {
    hide Passes, Positions, Percentile, Total, Latencies, Headroom;
    CleanCounts(samples, t);
    CleanLatency(samples, Headroom(interval, t));
    NothingFailed(samples);
    PassExactly(interval, samples, t);
    ProductNonNegative(t.maxFailure, Total(samples, (o: Outcome) => o.requests) as real);
  }

  lemma CleanCounts(samples: seq<Sample>, t: Thresholds)
    requires t.minSuccess <= 1.0 && 0.0 <= t.maxMiss
    requires forall i :: 0 <= i < |samples| ==> samples[i].outcome.success && !samples[i].outcome.missed
    ensures |Positions(samples, (o: Outcome) => o.success)| as real >= t.minSuccess * |samples| as real
    ensures |Positions(samples, (o: Outcome) => o.missed)| as real <= t.maxMiss * |samples| as real
  {
    AllPositions(samples, (o: Outcome) => o.success);
    assert Positions(samples, (o: Outcome) => o.missed) == {};
    ProductNonNegative(1.0 - t.minSuccess, |samples| as real);
    ProductNonNegative(t.maxMiss, |samples| as real);
  }

  lemma CleanLatency(samples: seq<Sample>, bound: real)
    requires samples != [] && forall i :: 0 <= i < |samples| ==> samples[i].outcome.latency <= bound
    ensures Percentile(Latencies(samples), 0.95).Some? && Percentile(Latencies(samples), 0.95).value <= bound
  {
    PercentileRank(Latencies(samples), 0.95);
    hide Percentile;
  }

  lemma {:induction false} AllPositions(samples: seq<Sample>, counted: Outcome -> bool)
    requires forall i :: 0 <= i < |samples| ==> counted(samples[i].outcome)
    ensures |Positions(samples, counted)| == |samples|
  {
    if samples != [] {
      AllPositions(Init(samples), counted);
      var n := |samples| - 1;
      assert Positions(samples, counted) == Positions(Init(samples), counted) + {n};
      assert n !in Positions(Init(samples), counted);
    }
  }

  lemma {:induction false} NothingFailed(samples: seq<Sample>)
    requires forall i :: 0 <= i < |samples| ==> samples[i].outcome.failed == 0
    ensures Total(samples, (o: Outcome) => o.failed) == 0
  {
    if samples != [] {
      NothingFailed(Init(samples));
    }
  }

  // ----- One observation -----

  /** A present controller that was polled gains the poll, every other one keeps what it had. */
  lemma BufferedExactly(buffer: map<string, seq<Sample>>, taken: map<string, Sample>, present: set<string>, c: string)
    ensures Get(Buffered(buffer, taken, present), c)
      == Get(buffer, c) + if c in present && c in taken then [taken[c]] else []
  {
  }

  /** Every present controller has a full stage of polls. */
  ghost predicate Full(cfg: Config, buffer: map<string, seq<Sample>>, present: set<string>) {
    forall c :: c in present ==> |Get(buffer, c)| >= cfg.perStage
  }

  /** The controller's last full stage of polls is good enough for the interval. */
  ghost predicate Holds(cfg: Config, interval: real, buffer: map<string, seq<Sample>>, c: string) {
    var polls := Get(buffer, c);
    |polls| >= cfg.perStage && GoodEnough(interval, polls[|polls| - cfg.perStage..], cfg.thresholds)
  }

  /**
   * An observation judges the stage exactly when nothing is locked and every present controller has a
   * full stage of polls. It stops if some controller fails, naming exactly the failing ones; else it
   * goes to the next stage, or locks the last one. Judging uses the polls up, waiting keeps them.
   */
  lemma ObservationExactly(cfg: Config, s: State, taken: map<string, Sample>, present: set<string>)
    requires s.stage < |cfg.intervals|
    ensures
      var buffer := Buffered(s.buffer, taken, present);
      var (after, message) := Next(cfg, s, taken, present);
      var interval := Current(cfg, s);
      if s.locked.Some? || present == {} then after == s && message.None?
      else if !Full(cfg, buffer, present) then after == s.(buffer := buffer) && message.None?
      else
        && after.buffer == map[] && message.Some?
        && (message.value.Stopped? <==> exists c :: c in present && !Holds(cfg, interval, buffer, c))
        && (message.value.Stopped? ==>
              && (forall c :: c in message.value.failing <==> c in present && !Holds(cfg, interval, buffer, c))
              && after.stage == s.stage && after.lastSafe == s.lastSafe && after.locked == Some(message.value.selected))
        && (!message.value.Stopped? && s.stage + 1 < |cfg.intervals| ==>
              message.value == Advanced(interval, cfg.intervals[s.stage + 1])
              && after == State(s.stage + 1, Some(interval), None, map[]))
        && (!message.value.Stopped? && s.stage + 1 == |cfg.intervals| ==>
              message.value == Selected(interval) && after == State(s.stage, Some(interval), Some(interval), map[]))
  {
    var buffer := Buffered(s.buffer, taken, present);
    FullIsReady(cfg, buffer, present);
    hide Buffered, Holds, Full, Failing, Ready, Current;
    if s.locked.None? && present != {} && Full(cfg, buffer, present) {
      FailingExactly(cfg, Current(cfg, s), buffer, present);
      JudgementExactly(cfg, s, taken, present);
    }
  }

  lemma JudgementExactly(cfg: Config, s: State, taken: map<string, Sample>, present: set<string>)
    requires s.stage < |cfg.intervals| && s.locked.None? && present != {}
    requires Ready(Buffered(s.buffer, taken, present), present, cfg.perStage)
    ensures
      var interval := Current(cfg, s);
      var failing := Failing(cfg, interval, Buffered(s.buffer, taken, present), present);
      var selected := Retreat(cfg, s.lastSafe);
      Next(cfg, s, taken, present)
      == if failing != {} then
           (State(s.stage, s.lastSafe, Some(selected), map[]), Some(Stopped(interval, selected, failing)))
         else if s.stage + 1 < |cfg.intervals| then
           (State(s.stage + 1, Some(interval), None, map[]), Some(Advanced(interval, cfg.intervals[s.stage + 1])))
         else (State(s.stage, Some(interval), Some(interval), map[]), Some(Selected(interval)))
  {
    hide Buffered, Failing, Ready, Retreat;
  }

  lemma FullIsReady(cfg: Config, buffer: map<string, seq<Sample>>, present: set<string>)
    ensures Full(cfg, buffer, present) <==> Ready(buffer, present, cfg.perStage)
  {
  }

  lemma FailingExactly(cfg: Config, interval: real, buffer: map<string, seq<Sample>>, present: set<string>)
    requires Full(cfg, buffer, present)
    ensures forall c :: c in Failing(cfg, interval, buffer, present) <==> c in present && !Holds(cfg, interval, buffer, c)
    ensures Failing(cfg, interval, buffer, present) != {} <==> exists c :: c in present && !Holds(cfg, interval, buffer, c)
  {
    hide Passes, GoodEnough;
    forall c | c in present
      ensures Fails(cfg, interval, buffer, c) <==> !Holds(cfg, interval, buffer, c)
    {
      var polls := Get(buffer, c);
      assert polls[|polls| - cfg.perStage..] == Recent(polls, cfg.perStage);
      PassExactly(interval, Recent(polls, cfg.perStage), cfg.thresholds);
    }
    hide Fails, Holds;
    assert forall c :: c in Failing(cfg, interval, buffer, present) <==> c in present && Fails(cfg, interval, buffer, c);
    if c :| c in present && !Holds(cfg, interval, buffer, c) {
      assert c in Failing(cfg, interval, buffer, present);
    }
  }
}
