/**
 * Interval calibration of polling/service.py: the stage evaluation, the controller of the live
 * watcher, and the report of the command-line benchmark.
 */
module AutoPoll {
  import opened Options
  import opened Percentiles
  import opened Sequences

  datatype Thresholds = Thresholds(minSuccess: real, maxP95Ratio: real, maxMiss: real, maxFailure: real, maxBus: real)

  /** What one logical poll measured. */
  datatype Outcome = Outcome(
    latency: real,
    requests: nat,
    failed: nat,
    bus: Option<real>,
    missed: bool,
    success: bool)

  /** A poll and the interval it was taken at. */
  datatype Sample = Sample(interval: real, outcome: Outcome)

  // ----- Stage evaluation -----

  function Tally(samples: seq<Sample>, counted: Outcome -> bool): nat {
    if samples == [] then 0 else Tally(Init(samples), counted) + if counted(Last(samples).outcome) then 1 else 0
  }

  function Total(samples: seq<Sample>, amount: Outcome -> nat): nat {
    if samples == [] then 0 else Total(Init(samples), amount) + amount(Last(samples).outcome)
  }

  function Latencies(samples: seq<Sample>): seq<real> {
    seq(|samples|, i requires 0 <= i < |samples| => samples[i].outcome.latency)
  }

  function MaxBus(samples: seq<Sample>): Option<real> {
    if samples == [] then None
    else
      match (MaxBus(Init(samples)), Last(samples).outcome.bus)
      case (None, bus) => bus
      case (most, None) => most
      case (Some(most), Some(bus)) => Some(if most < bus then bus else most)
  }

  function Rate(part: nat, whole: nat): real {
    if whole == 0 then 0.0 else part as real / whole as real
  }

  datatype Reason = LowSuccess | SlowPolls | DeadlineMisses | RequestFailures | BusyBus

  function Reasons(interval: real, samples: seq<Sample>, t: Thresholds): seq<Reason> {
    var p95 := Percentile(Latencies(samples), 0.95);
    var bus := MaxBus(samples);
    (if Rate(Tally(samples, (o: Outcome) => o.success), |samples|) < t.minSuccess then [LowSuccess] else [])
    + (if p95.None? || p95.value > interval * 1000.0 * t.maxP95Ratio then [SlowPolls] else [])
    + (if Rate(Tally(samples, (o: Outcome) => o.missed), |samples|) > t.maxMiss then [DeadlineMisses] else [])
    + (if Rate(Total(samples, (o: Outcome) => o.failed), Total(samples, (o: Outcome) => o.requests)) > t.maxFailure then [RequestFailures] else [])
    + (if bus.Some? && bus.value > t.maxBus then [BusyBus] else [])
  }

  predicate Passes(interval: real, samples: seq<Sample>, t: Thresholds) {
    Reasons(interval, samples, t) == []
  }

  /**
   * What passing means for the polls themselves: enough succeeded, few missed their deadline, few
   * requests failed, no poll overloaded the bus, and all but a twentieth left the headroom asked for.
   */
  lemma PassMeans(interval: real, samples: seq<Sample>, t: Thresholds)
    requires Passes(interval, samples, t)
    ensures samples != []
    ensures Tally(samples, (o: Outcome) => o.success) as real >= t.minSuccess * |samples| as real
    ensures Tally(samples, (o: Outcome) => o.missed) as real <= t.maxMiss * |samples| as real
    ensures var requests := Total(samples, (o: Outcome) => o.requests);
      requests > 0 ==> Total(samples, (o: Outcome) => o.failed) as real <= t.maxFailure * requests as real
    ensures forall i :: 0 <= i < |samples| && samples[i].outcome.bus.Some? ==> samples[i].outcome.bus.value <= t.maxBus
    ensures AtMost(Latencies(samples), interval * 1000.0 * t.maxP95Ratio) as real > (|samples| - 1) as real * 0.95
  {
    hide Percentile, Tally, Total, MaxBus, Rate;
    var n := |samples|;
    var requests := Total(samples, (o: Outcome) => o.requests);
    BusAtMost(samples);
    RateAtLeast(Tally(samples, (o: Outcome) => o.success), n, t.minSuccess);
    RateAtMost(Tally(samples, (o: Outcome) => o.missed), n, t.maxMiss);
    RateAtMost(Total(samples, (o: Outcome) => o.failed), requests, t.maxFailure);
    PercentileRank(Latencies(samples), 0.95);
    AtMostMonotone(Latencies(samples), Percentile(Latencies(samples), 0.95).value, interval * 1000.0 * t.maxP95Ratio);
  }

  lemma RateAtLeast(part: nat, whole: nat, bound: real)
    requires Rate(part, whole) >= bound
    ensures part as real >= bound * whole as real
  {
    if whole > 0 {
      ProductNonNegative(Rate(part, whole) - bound, whole as real);
      assert Rate(part, whole) * whole as real == part as real;
    }
  }

  lemma RateAtMost(part: nat, whole: nat, bound: real)
    requires Rate(part, whole) <= bound
    ensures whole > 0 ==> part as real <= bound * whole as real
  {
    if whole > 0 {
      ProductNonNegative(bound - Rate(part, whole), whole as real);
      assert Rate(part, whole) * whole as real == part as real;
    }
  }

  lemma {:induction false} BusAtMost(samples: seq<Sample>)
    ensures forall i :: 0 <= i < |samples| && samples[i].outcome.bus.Some? ==>
      MaxBus(samples).Some? && samples[i].outcome.bus.value <= MaxBus(samples).value
  {
    if samples != [] {
      BusAtMost(Init(samples));
      assert forall i :: 0 <= i < |samples| - 1 ==> samples[i] == Init(samples)[i];
    }
  }

  /** Evidence that is good enough for an interval is good enough for every slower one. */
  lemma PassesSlower(interval: real, slower: real, samples: seq<Sample>, t: Thresholds)
    requires Passes(interval, samples, t) && interval <= slower && 0.0 <= t.maxP95Ratio
    ensures Passes(slower, samples, t)
  {
    hide Percentile, Tally, Total, MaxBus, Latencies, Rate;
    ProductNonNegative((slower - interval) * 1000.0, t.maxP95Ratio);
    assert slower * 1000.0 * t.maxP95Ratio
           == interval * 1000.0 * t.maxP95Ratio + (slower - interval) * 1000.0 * t.maxP95Ratio;
  }

  // ----- Stages -----

  /** Insertion into a strictly descending sequence, without repetition. */
  function Place(x: real, s: seq<real>): seq<real> {
    if s == [] || x > s[0] then [x] + s else if x == s[0] then s else [s[0]] + Place(x, s[1..])
  }

  function Staged(values: seq<real>): seq<real> {
    if values == [] then [] else Place(values[0], Staged(values[1..]))
  }

  ghost predicate Descending(s: seq<real>) {
    forall i, j :: 0 <= i < j < |s| ==> s[i] > s[j]
  }

  lemma {:induction false} PlaceShape(x: real, s: seq<real>)
    requires Descending(s)
    ensures Descending(Place(x, s)) && Place(x, s)[0] == (if s == [] || x > s[0] then x else s[0])
    ensures forall y :: y in Place(x, s) <==> y == x || y in s
  {
    if s != [] && x < s[0] {
      assert s == [s[0]] + s[1..];
      PlaceShape(x, s[1..]);
      var rest := Place(x, s[1..]);
      assert forall j :: 0 <= j < |rest| ==> rest[j] <= rest[0];
    }
  }

  /** The stages are the configured intervals and the fallback, each once, slowest first. */
  lemma {:induction false} StagedShape(values: seq<real>)
    ensures Descending(Staged(values))
    ensures forall y :: y in Staged(values) <==> y in values
  {
    if values != [] {
      StagedShape(values[1..]);
      PlaceShape(values[0], Staged(values[1..]));
      assert values == [values[0]] + values[1..];
    }
  }

  datatype Config = Config(intervals: seq<real>, perStage: nat, thresholds: Thresholds, fallback: real)

  /** What the class itself makes sure of. */
  ghost predicate Shaped(cfg: Config) {
    cfg.intervals != [] && Descending(cfg.intervals) && cfg.intervals[0] == cfg.fallback && cfg.perStage >= 3
  }

  /** Every configuration the program can start with. */
  ghost predicate WellFormed(cfg: Config) {
    Shaped(cfg) && forall i :: 0 <= i < |cfg.intervals| ==> cfg.intervals[i] > 0.0
  }

  /** The benchmark settings, as far as they bear on calibration. */
  datatype Settings = Settings(minimum: real, intervals: seq<real>, perStage: int, fallback: real, thresholds: Thresholds)

  predicate Validated(s: Settings) {
    && s.minimum > 0.0
    && s.intervals != []
    && (forall x :: x in s.intervals ==> x >= s.minimum)
    && s.perStage >= 3
    && s.fallback > 0.0
    && (forall x :: x in s.intervals ==> s.fallback >= x)
    && 0.0 <= s.thresholds.minSuccess <= 1.0 && 0.0 <= s.thresholds.maxP95Ratio <= 1.0
    && 0.0 <= s.thresholds.maxMiss <= 1.0 && 0.0 <= s.thresholds.maxFailure <= 1.0
    && 0.0 < s.thresholds.maxBus <= 100.0
  }

  /** Validated settings never run into one of the class's errors, and all their stages are positive. */
  lemma ValidatedIsWellFormed(s: Settings)
    requires Validated(s)
    ensures !exists x :: x in s.intervals && s.fallback < x
    ensures WellFormed(Config(Staged(s.intervals + [s.fallback]), s.perStage, s.thresholds, s.fallback))
  {
    var all := s.intervals + [s.fallback];
    StagedShape(all);
    FallbackComesFirst(s.intervals, s.fallback);
    forall i | 0 <= i < |Staged(all)|
      ensures Staged(all)[i] > 0.0
    {
      assert Staged(all)[i] in all;
    }
  }

  // ----- The calibration state -----

  datatype State = State(stage: nat, lastSafe: Option<real>, locked: Option<real>, buffer: map<string, seq<Sample>>)

  datatype Message =
    | Stopped(interval: real, selected: real, failing: set<string>)
    | Advanced(interval: real, next: real)
    | Selected(interval: real)

  const START := State(0, None, None, map[])

  function Current(cfg: Config, s: State): real
    requires s.stage < |cfg.intervals|
  {
    if s.locked.Some? then s.locked.value else cfg.intervals[s.stage]
  }

  function Get(buffer: map<string, seq<Sample>>, c: string): seq<Sample> {
    if c in buffer then buffer[c] else []
  }

  function Buffered(buffer: map<string, seq<Sample>>, samples: map<string, Sample>, present: set<string>): map<string, seq<Sample>> {
    map c | c in buffer.Keys + (present * samples.Keys) ::
      Get(buffer, c) + if c in present && c in samples then [samples[c]] else []
  }

  predicate Ready(buffer: map<string, seq<Sample>>, present: set<string>, n: nat) {
    forall c :: c in present ==> |Get(buffer, c)| >= n
  }

  function Recent(samples: seq<Sample>, n: nat): seq<Sample> {
    if |samples| <= n then samples else samples[|samples| - n..]
  }

  predicate Fails(cfg: Config, interval: real, buffer: map<string, seq<Sample>>, c: string) {
    !Passes(interval, Recent(Get(buffer, c), cfg.perStage), cfg.thresholds)
  }

  function Failing(cfg: Config, interval: real, buffer: map<string, seq<Sample>>, present: set<string>): set<string> {
    set c | c in present && Fails(cfg, interval, buffer, c)
  }

  /** The choice after a failure; the class treats a last safe interval of zero, which no settings allow, as none. */
  function Retreat(cfg: Config, lastSafe: Option<real>): real {
    if lastSafe.Some? && lastSafe.value != 0.0 then lastSafe.value else cfg.fallback
  }

  function Next(cfg: Config, s: State, samples: map<string, Sample>, present: set<string>): (State, Option<Message>)
    requires s.stage < |cfg.intervals|
  {
    if s.locked.Some? || present == {} then (s, None)
    else
      var buffer := Buffered(s.buffer, samples, present);
      if !Ready(buffer, present, cfg.perStage) then (s.(buffer := buffer), None)
      else
        var interval := Current(cfg, s);
        var failing := Failing(cfg, interval, buffer, present);
        if failing != {} then
          var selected := Retreat(cfg, s.lastSafe);
          (State(s.stage, s.lastSafe, Some(selected), map[]), Some(Stopped(interval, selected, failing)))
        else if s.stage + 1 < |cfg.intervals| then
          (State(s.stage + 1, Some(interval), None, map[]), Some(Advanced(interval, cfg.intervals[s.stage + 1])))
        else
          (State(s.stage, Some(interval), Some(interval), map[]), Some(Selected(interval)))
  }

  datatype Refusal = NoIntervals | TooFewSamples | FallbackTooFast

  datatype Created = Made(controller: AutoPollIntervalController) | Refused(why: Refusal)

  class AutoPollIntervalController {
    const config: Config
    var stage: nat
    var lastSafe: Option<real>
    var locked: Option<real>
    var samples: map<string, seq<Sample>>

    ghost predicate Valid()
      reads this
    {
      Shaped(config) && stage < |config.intervals|
    }

    function Abstract(): State
      reads this
    {
      State(stage, lastSafe, locked, samples)
    }

    constructor (config: Config)
      requires Shaped(config)
      ensures Valid() && this.config == config && Abstract() == START
    {
      this.config := config;
      stage, lastSafe, locked, samples := 0, None, None, map[];
    }

    static method Create(intervals: seq<real>, perStage: int, thresholds: Thresholds, fallback: real) returns (r: Created)
      ensures r == Refused(NoIntervals) <==> intervals == []
      ensures r == Refused(TooFewSamples) <==> intervals != [] && perStage < 3
      ensures r == Refused(FallbackTooFast) <==>
                intervals != [] && perStage >= 3 && exists x :: x in intervals && fallback < x
      ensures r.Made? ==>
                && fresh(r.controller) && r.controller.Valid() && r.controller.Abstract() == START
                && r.controller.config == Config(Staged(intervals + [fallback]), perStage, thresholds, fallback)
    {
      if intervals == [] {
        return Refused(NoIntervals);
      }
      if perStage < 3 {
        return Refused(TooFewSamples);
      }
      if exists x :: x in intervals && fallback < x {
        return Refused(FallbackTooFast);
      }
      StagedShape(intervals + [fallback]);
      FallbackComesFirst(intervals, fallback);
      var c := new AutoPollIntervalController(Config(Staged(intervals + [fallback]), perStage, thresholds, fallback));
      return Made(c);
    }

    method CurrentInterval() returns (interval: real)
      requires Valid()
      ensures interval == Current(config, Abstract())
    {
      if locked.Some? {
        return locked.value;
      }
      return config.intervals[stage];
    }

    method Reset()
      requires Valid()
      modifies this
      ensures Valid() && Abstract() == START
    {
      stage, lastSafe, locked, samples := 0, None, None, map[];
    }

    method Observe(taken: map<string, Sample>, present: set<string>) returns (message: Option<Message>)
      requires Valid()
      modifies this
      ensures Valid()
      ensures (Abstract(), message) == Next(config, old(Abstract()), taken, present)
    {
      hide Passes, Descending, Buffered;
      if locked.Some? || present == {} {
        return None;
      }
      Collect(taken, present);
      if exists c :: c in present && |Get(samples, c)| < config.perStage {
        return None;
      }
      var interval := config.intervals[stage];
      var failing := set c | c in present && Fails(config, interval, samples, c);
      samples := map[];
      if failing != {} {
        var selected := Retreat(config, lastSafe);
        locked := Some(selected);
        return Some(Stopped(interval, selected, failing));
      }
      lastSafe := Some(interval);
      if stage + 1 < |config.intervals| {
        stage := stage + 1;
        return Some(Advanced(interval, config.intervals[stage]));
      }
      locked := Some(interval);
      return Some(Selected(interval));
    }

    method Collect(taken: map<string, Sample>, present: set<string>)
      modifies `samples
      ensures samples == Buffered(old(samples), taken, present)
    {
      var rest := present;
      ghost var before := samples;
      assert present - rest == {};
      BufferedNone(samples, taken);
      while rest != {}
        invariant rest <= present
        invariant samples == Buffered(before, taken, present - rest)
        decreases rest
      {
        var c :| c in rest;
        assert present - (rest - {c}) == (present - rest) + {c};
        if c in taken {
          samples := samples[c := Get(samples, c) + [taken[c]]];
        }
        rest := rest - {c};
      }
      assert present - rest == present;
    }
  }

  lemma BufferedNone(buffer: map<string, seq<Sample>>, taken: map<string, Sample>)
    ensures Buffered(buffer, taken, {}) == buffer
  {
    var same := Buffered(buffer, taken, {});
    assert forall c :: c in buffer ==> same[c] == buffer[c] + [];
    assert forall c :: c in buffer ==> same[c] == buffer[c];
  }

  lemma FallbackComesFirst(intervals: seq<real>, fallback: real)
    requires !exists x :: x in intervals && fallback < x
    ensures Staged(intervals + [fallback]) != [] && Staged(intervals + [fallback])[0] == fallback
  {
    var all := intervals + [fallback];
    StagedShape(all);
    var stages := Staged(all);
    assert all[|intervals|] == fallback;
    assert fallback in stages;
    assert stages[0] in all;
  }

  // ----- What every run keeps -----

  /** The buffer holds polls of the interval under test only. */
  ghost predicate AtInterval(buffer: map<string, seq<Sample>>, interval: real) {
    forall c, i :: c in buffer && 0 <= i < |buffer[c]| ==> buffer[c][i].interval == interval
  }

  /**
   * The stage before the current one is the last safe interval. After a failure the interval in
   * force is the last safe one, or the fallback; after the last stage passed it is the fastest.
   */
  ghost predicate Invariant(cfg: Config, s: State) {
    && s.stage < |cfg.intervals|
    && (s.locked.None? ==>
          && s.lastSafe == (if s.stage == 0 then None else Some(cfg.intervals[s.stage - 1]))
          && AtInterval(s.buffer, cfg.intervals[s.stage]))
    && (s.locked.Some? ==>
          && s.buffer == map[]
          && (|| (s.lastSafe == s.locked == Some(cfg.intervals[s.stage]) && s.stage == |cfg.intervals| - 1)
              || (s.lastSafe == (if s.stage == 0 then None else Some(cfg.intervals[s.stage - 1]))
                  && s.locked == Some(Retreat(cfg, s.lastSafe)))))
  }

  lemma NextKeepsInvariant(cfg: Config, s: State, taken: map<string, Sample>, present: set<string>)
    requires Shaped(cfg) && Invariant(cfg, s)
    requires forall c :: c in taken ==> taken[c].interval == Current(cfg, s)
    ensures Invariant(cfg, Next(cfg, s, taken, present).0)
  {
    hide Failing, Ready, Descending;
    if s.locked.None? {
      BufferedAtInterval(s.buffer, taken, present, Current(cfg, s));
    }
    hide Buffered;
  }

  lemma BufferedAtInterval(buffer: map<string, seq<Sample>>, taken: map<string, Sample>, present: set<string>, interval: real)
    requires AtInterval(buffer, interval) && forall c :: c in taken ==> taken[c].interval == interval
    ensures AtInterval(Buffered(buffer, taken, present), interval)
  {
  }

  /** The interval in force is always a configured one. */
  lemma CurrentIsConfigured(cfg: Config, s: State)
    requires Shaped(cfg) && Invariant(cfg, s)
    ensures Current(cfg, s) in cfg.intervals
  {
  }

  /** Advancing or selecting means that every present controller passed, on polls of that interval alone. */
  lemma AdvanceMeansAllPassed(cfg: Config, s: State, taken: map<string, Sample>, present: set<string>, c: string)
    requires Shaped(cfg) && Invariant(cfg, s) && c in present
    requires forall d :: d in taken ==> taken[d].interval == Current(cfg, s)
    requires Next(cfg, s, taken, present).1.Some? && !Next(cfg, s, taken, present).1.value.Stopped?
    ensures
      var evidence := Recent(Get(Buffered(s.buffer, taken, present), c), cfg.perStage);
      && |evidence| == cfg.perStage
      && (forall i :: 0 <= i < |evidence| ==> evidence[i].interval == Current(cfg, s))
      && Passes(Current(cfg, s), evidence, cfg.thresholds)
      && Next(cfg, s, taken, present).0.lastSafe == Some(Current(cfg, s))
  {
    hide Passes;
    var buffer := Buffered(s.buffer, taken, present);
    var failing := Failing(cfg, Current(cfg, s), buffer, present);
    assert Ready(buffer, present, cfg.perStage) && |Get(buffer, c)| >= cfg.perStage;
    assert failing == {} && c !in failing;
  }

  // ----- Runs of the watcher: reset on a changed controller set, read the interval, poll, observe -----

  datatype Cycle = Cycle(reset: bool, outcomes: map<string, Outcome>, present: set<string>)

  function TakenAt(outcomes: map<string, Outcome>, interval: real): map<string, Sample> {
    map c | c in outcomes :: Sample(interval, outcomes[c])
  }

  ghost function After(cfg: Config, cycles: seq<Cycle>): (s: State)
    requires Shaped(cfg)
    ensures Invariant(cfg, s)
    decreases |cycles|, 1
  {
    if cycles == [] then START
    else
      var s := Entering(cfg, cycles);
      var taken := TakenAt(Last(cycles).outcomes, Current(cfg, s));
      NextKeepsInvariant(cfg, s, taken, Last(cycles).present);
      Next(cfg, s, taken, Last(cycles).present).0
  }

  ghost function Entering(cfg: Config, cycles: seq<Cycle>): (s: State)
    requires Shaped(cfg) && cycles != []
    ensures Invariant(cfg, s)
    decreases |cycles|, 0
  {
    if Last(cycles).reset then START else After(cfg, Init(cycles))
  }

  ghost function Said(cfg: Config, cycles: seq<Cycle>): Option<Message>
    requires Shaped(cfg) && cycles != []
  {
    var s := Entering(cfg, cycles);
    Next(cfg, s, TakenAt(Last(cycles).outcomes, Current(cfg, s)), Last(cycles).present).1
  }

  /** Messages, which are exactly the evaluations, since the last reset. */
  ghost function Evaluations(cfg: Config, cycles: seq<Cycle>): nat
    requires Shaped(cfg)
  {
    if cycles == [] then 0
    else (if Last(cycles).reset then 0 else Evaluations(cfg, Init(cycles))) + if Said(cfg, cycles).Some? then 1 else 0
  }

  function Done(s: State): nat {
    s.stage + if s.locked.Some? then 1 else 0
  }

  lemma NextCounts(cfg: Config, s: State, taken: map<string, Sample>, present: set<string>)
    requires Shaped(cfg) && Invariant(cfg, s)
    ensures
      var (after, message) := Next(cfg, s, taken, present);
      Done(after) == Done(s) + if message.Some? then 1 else 0
  {
  }

  /** Between resets each stage is evaluated at most once, so calibration ends within one evaluation a stage. */
  lemma {:induction false} OneEvaluationPerStage(cfg: Config, cycles: seq<Cycle>)
    requires Shaped(cfg)
    ensures
      Evaluations(cfg, cycles) == Done(After(cfg, cycles)) <= |cfg.intervals|
  {
    hide Next, TakenAt, AtInterval;
    if cycles != [] {
      OneEvaluationPerStage(cfg, Init(cycles));
      var s := Entering(cfg, cycles);
      NextCounts(cfg, s, TakenAt(Last(cycles).outcomes, Current(cfg, s)), Last(cycles).present);
    }
  }

  /** Once locked, only a changed controller set can unlock. */
  lemma LockedUntilReset(cfg: Config, cycles: seq<Cycle>)
    requires Shaped(cfg) && cycles != [] && !Last(cycles).reset && After(cfg, Init(cycles)).locked.Some?
    ensures After(cfg, cycles) == After(cfg, Init(cycles)) && Said(cfg, cycles).None?
  {
  }

  /** When a stage fails, the next slower one is used, or the first one itself. */
  lemma FailureRetreatsOneStage(cfg: Config, s: State, taken: map<string, Sample>, present: set<string>)
    requires WellFormed(cfg) && Invariant(cfg, s)
    requires Next(cfg, s, taken, present).1.Some? && Next(cfg, s, taken, present).1.value.Stopped?
    ensures
      Current(cfg, Next(cfg, s, taken, present).0) == cfg.intervals[if s.stage == 0 then 0 else s.stage - 1]
  {
  }

  // ----- The command-line report -----

  datatype Stage = Stage(interval: real, passed: bool)

  function Recommend(recommended: Option<real>, stages: seq<Stage>): Option<real>
    decreases |stages|
  {
    if stages == [] || !stages[0].passed then recommended else Recommend(Some(stages[0].interval), stages[1..])
  }

  /** The report recommends the last of the leading stages that passed. */
  method BuildReport(stages: seq<Stage>) returns (recommended: Option<real>, fastest: Option<real>)
    ensures recommended == Recommend(None, stages)
    ensures exists n: nat ::
              && LeadingPasses(stages, n)
              && recommended == (if n == 0 then None else Some(stages[n - 1].interval))
              && fastest == (if stages == [] then None else Some(stages[if n < |stages| then n else n - 1].interval))
  {
    recommended, fastest := None, None;
    for i := 0 to |stages|
      invariant LeadingRun(stages, i)
      invariant recommended == fastest == if i == 0 then None else Some(stages[i - 1].interval)
      invariant Recommend(None, stages) == Recommend(recommended, stages[i..])
    {
      fastest := Some(stages[i].interval);
      if stages[i].passed {
        assert stages[i..][1..] == stages[i + 1..];
        recommended := Some(stages[i].interval);
      } else {
        assert LeadingPasses(stages, i);
        return;
      }
    }
    assert LeadingPasses(stages, |stages|);
  }

  ghost predicate LeadingRun(stages: seq<Stage>, n: nat)
    requires n <= |stages|
  {
    forall i :: 0 <= i < n ==> stages[i].passed
  }

  ghost predicate LeadingPasses(stages: seq<Stage>, n: nat) {
    n <= |stages| && LeadingRun(stages, n) && (n < |stages| ==> !stages[n].passed)
  }

  // ----- With one controller the live form agrees with the report -----

  /** A watcher run over one controller that is present and answers in every cycle. */
  ghost function Feed(cfg: Config, s: State, c: string, outcomes: seq<Outcome>): (r: State)
    requires Shaped(cfg) && Invariant(cfg, s)
    ensures Invariant(cfg, r)
    decreases |outcomes|
  {
    if outcomes == [] then s
    else
      var taken := TakenAt(map[c := outcomes[0]], Current(cfg, s));
      NextKeepsInvariant(cfg, s, taken, {c});
      Feed(cfg, Next(cfg, s, taken, {c}).0, c, outcomes[1..])
  }

  function Samples(interval: real, outcomes: seq<Outcome>): seq<Sample> {
    seq(|outcomes|, i requires 0 <= i < |outcomes| => Sample(interval, outcomes[i]))
  }

  /** Enough polls for every stage from this one on. */
  predicate Enough(cfg: Config, stage: nat, outcomes: seq<Outcome>) {
    stage <= |cfg.intervals| && |outcomes| >= cfg.perStage * (|cfg.intervals| - stage)
  }

  /** The benchmark's stages over the same polls, in order; it stops at the first failure. */
  function Benchmark(cfg: Config, stage: nat, outcomes: seq<Outcome>): seq<Stage>
    requires cfg.perStage > 0 && Enough(cfg, stage, outcomes)
    decreases |cfg.intervals| - stage
  {
    if stage == |cfg.intervals| then []
    else
      var passed := StagePasses(cfg, stage, outcomes);
      EnoughLeft(cfg, stage, outcomes);
      [Stage(cfg.intervals[stage], passed)]
      + if passed then Benchmark(cfg, stage + 1, outcomes[cfg.perStage..]) else []
  }

  lemma EnoughLeft(cfg: Config, stage: nat, outcomes: seq<Outcome>)
    requires stage < |cfg.intervals| && Enough(cfg, stage, outcomes)
    ensures |outcomes| >= cfg.perStage && Enough(cfg, stage + 1, outcomes[cfg.perStage..])
  {
    var left := |cfg.intervals| - (stage + 1);
    assert cfg.perStage * (left + 1) == cfg.perStage * left + cfg.perStage;
    assert 0 <= cfg.perStage * left;
  }

  predicate StagePasses(cfg: Config, stage: nat, outcomes: seq<Outcome>)
    requires stage < |cfg.intervals|
  {
    var due := if |outcomes| <= cfg.perStage then outcomes else outcomes[..cfg.perStage];
    Passes(cfg.intervals[stage], Samples(cfg.intervals[stage], due), cfg.thresholds)
  }

  /** In the middle of a stage with one controller, after some of its polls. */
  ghost function Filling(cfg: Config, stage: nat, c: string, seen: seq<Outcome>): State
    requires stage < |cfg.intervals|
  {
    State(stage, if stage == 0 then None else Some(cfg.intervals[stage - 1]), None,
          if seen == [] then map[] else map[c := Samples(cfg.intervals[stage], seen)])
  }

  /** What a complete stage leads to. */
  ghost function Judged(cfg: Config, stage: nat, passed: bool): State
    requires stage < |cfg.intervals|
  {
    var lastSafe := if stage == 0 then None else Some(cfg.intervals[stage - 1]);
    if !passed then State(stage, lastSafe, Some(Retreat(cfg, lastSafe)), map[])
    else if stage + 1 < |cfg.intervals| then State(stage + 1, Some(cfg.intervals[stage]), None, map[])
    else State(stage, Some(cfg.intervals[stage]), Some(cfg.intervals[stage]), map[])
  }

  lemma FillStep(cfg: Config, stage: nat, c: string, seen: seq<Outcome>, o: Outcome)
    requires Shaped(cfg) && stage < |cfg.intervals| && |seen| < cfg.perStage
    ensures
      var s := Filling(cfg, stage, c, seen);
      var taken := TakenAt(map[c := o], cfg.intervals[stage]);
      Next(cfg, s, taken, {c}).0
      == if |seen| + 1 < cfg.perStage then Filling(cfg, stage, c, seen + [o])
         else Judged(cfg, stage, Passes(cfg.intervals[stage], Samples(cfg.intervals[stage], seen + [o]), cfg.thresholds))
  {
    hide Passes;
    var s := Filling(cfg, stage, c, seen);
    var interval := cfg.intervals[stage];
    var taken := TakenAt(map[c := o], interval);
    var buffer := Buffered(s.buffer, taken, {c});
    assert c in taken && taken[c] == Sample(interval, o);
    assert Samples(interval, seen + [o]) == Samples(interval, seen) + [Sample(interval, o)];
    assert Get(s.buffer, c) == Samples(interval, seen);
    assert buffer == map[c := Samples(interval, seen + [o])];
    OneController(cfg, interval, buffer, c);
  }

  lemma OneController(cfg: Config, interval: real, buffer: map<string, seq<Sample>>, c: string)
    ensures Ready(buffer, {c}, cfg.perStage) <==> |Get(buffer, c)| >= cfg.perStage
    ensures Failing(cfg, interval, buffer, {c}) == if Fails(cfg, interval, buffer, c) then {c} else {}
  {
  }

  lemma FeedOnce(cfg: Config, s: State, c: string, outcomes: seq<Outcome>)
    requires Shaped(cfg) && Invariant(cfg, s) && outcomes != []
    ensures
      var after := Next(cfg, s, TakenAt(map[c := outcomes[0]], Current(cfg, s)), {c}).0;
      Invariant(cfg, after) && Feed(cfg, s, c, outcomes) == Feed(cfg, after, c, outcomes[1..])
  {
    NextKeepsInvariant(cfg, s, TakenAt(map[c := outcomes[0]], Current(cfg, s)), {c});
  }

  lemma {:induction false} FeedStage(cfg: Config, stage: nat, c: string, seen: seq<Outcome>, outcomes: seq<Outcome>)
    requires Shaped(cfg) && stage < |cfg.intervals| && |seen| < cfg.perStage <= |seen| + |outcomes|
    requires Invariant(cfg, Filling(cfg, stage, c, seen))
    ensures
      var n := cfg.perStage - |seen|;
      var judged := Judged(cfg, stage, StagePasses(cfg, stage, seen + outcomes));
      Invariant(cfg, judged) && Feed(cfg, Filling(cfg, stage, c, seen), c, outcomes) == Feed(cfg, judged, c, outcomes[n..])
    decreases |outcomes|
  {
    hide Feed, Next, Judged, Invariant, Descending, StagePasses;
    var o, rest := outcomes[0], outcomes[1..];
    var s, n := Filling(cfg, stage, c, seen), cfg.perStage - |seen|;
    FillStep(cfg, stage, c, seen, o);
    FeedOnce(cfg, s, c, outcomes);
    assert seen + outcomes == (seen + [o]) + rest;
    if |seen| + 1 < cfg.perStage {
      FeedStage(cfg, stage, c, seen + [o], rest);
      assert rest[n - 1..] == outcomes[n..];
    } else {
      WholeStage(cfg, stage, seen, o, rest);
    }
  }

  lemma WholeStage(cfg: Config, stage: nat, seen: seq<Outcome>, o: Outcome, rest: seq<Outcome>)
    requires stage < |cfg.intervals| && |seen| + 1 == cfg.perStage
    ensures StagePasses(cfg, stage, (seen + [o]) + rest)
            == Passes(cfg.intervals[stage], Samples(cfg.intervals[stage], seen + [o]), cfg.thresholds)
  {
    var all := (seen + [o]) + rest;
    assert (if |all| <= cfg.perStage then all else all[..cfg.perStage]) == seen + [o];
  }

  lemma {:induction false} LockedStays(cfg: Config, s: State, c: string, outcomes: seq<Outcome>)
    requires Shaped(cfg) && Invariant(cfg, s) && s.locked.Some?
    ensures Feed(cfg, s, c, outcomes) == s
    decreases |outcomes|
  {
    if outcomes != [] {
      LockedStays(cfg, s, c, outcomes[1..]);
    }
  }

  /**
   * Fed the benchmark's polls, the live controller locks on the report's recommendation, or on the
   * fallback when there is none.
   */
  lemma LiveRefinesReport(cfg: Config, c: string, outcomes: seq<Outcome>)
    requires WellFormed(cfg) && Enough(cfg, 0, outcomes)
    ensures
      var stages := Benchmark(cfg, 0, outcomes);
      var recommended := Recommend(None, stages);
      && (forall i :: 0 <= i < |stages| - 1 ==> stages[i].passed)
      && Feed(cfg, START, c, outcomes).locked == Some(if recommended.None? then cfg.fallback else recommended.value)
  {
    hide StagePasses, Feed, Benchmark, Enough;
    LiveFollowsStages(cfg, 0, c, outcomes);
    assert Filling(cfg, 0, c, []) == START;
    BenchmarkIsPositive(cfg, 0, outcomes);
    RecommendedIsPositive(None, Benchmark(cfg, 0, outcomes));
  }

  lemma {:induction false} BenchmarkIsPositive(cfg: Config, stage: nat, outcomes: seq<Outcome>)
    requires WellFormed(cfg) && Enough(cfg, stage, outcomes)
    ensures forall i :: 0 <= i < |Benchmark(cfg, stage, outcomes)| ==> Benchmark(cfg, stage, outcomes)[i].interval > 0.0
    decreases |cfg.intervals| - stage
  {
    hide StagePasses;
    if stage < |cfg.intervals| {
      EnoughLeft(cfg, stage, outcomes);
      var rest := outcomes[cfg.perStage..];
      BenchmarkIsPositive(cfg, stage + 1, rest);
      var stages := Benchmark(cfg, stage, outcomes);
      assert stages[0].interval == cfg.intervals[stage];
      assert |stages| == 1 || forall i :: 0 < i < |stages| ==> stages[i] == Benchmark(cfg, stage + 1, rest)[i - 1];
    }
  }

  lemma {:induction false} RecommendedIsPositive(recommended: Option<real>, stages: seq<Stage>)
    requires recommended.Some? ==> recommended.value > 0.0
    requires forall i :: 0 <= i < |stages| ==> stages[i].interval > 0.0
    ensures Recommend(recommended, stages).Some? ==> Recommend(recommended, stages).value > 0.0
    decreases |stages|
  {
    if stages != [] {
      RecommendedIsPositive(Some(stages[0].interval), stages[1..]);
    }
  }

  function SafeBefore(cfg: Config, stage: nat): Option<real>
    requires stage <= |cfg.intervals|
  {
    if stage == 0 then None else Some(cfg.intervals[stage - 1])
  }

  /** What the controller locks on when the rest of the benchmark has these stages. */
  predicate LocksLike(cfg: Config, lastSafe: Option<real>, stages: seq<Stage>, locked: Option<real>) {
    && stages != []
    && (forall i :: 0 <= i < |stages| - 1 ==> stages[i].passed)
    && var recommended := Recommend(lastSafe, stages);
    if stages[|stages| - 1].passed then recommended.Some? && locked == recommended
    else locked == Some(Retreat(cfg, recommended))
  }

  lemma {:induction false} LiveFollowsStages(cfg: Config, stage: nat, c: string, outcomes: seq<Outcome>)
    requires Shaped(cfg) && stage < |cfg.intervals| && Enough(cfg, stage, outcomes)
    ensures Invariant(cfg, Filling(cfg, stage, c, []))
    ensures LocksLike(cfg, SafeBefore(cfg, stage), Benchmark(cfg, stage, outcomes),
                      Feed(cfg, Filling(cfg, stage, c, []), c, outcomes).locked)
    decreases |cfg.intervals| - stage
  {
    hide StagePasses, LocksLike, Feed, Descending, AtInterval, Benchmark, Enough;
    FillingInvariant(cfg, stage, c);
    EnoughLeft(cfg, stage, outcomes);
    assert [] + outcomes == outcomes;
    FeedStage(cfg, stage, c, [], outcomes);
    var passed := StagePasses(cfg, stage, outcomes);
    var judged, rest := Judged(cfg, stage, passed), outcomes[cfg.perStage..];
    BenchmarkSteps(cfg, stage, outcomes);
    if passed && stage + 1 < |cfg.intervals| {
      LiveFollowsStages(cfg, stage + 1, c, rest);
      LocksLater(cfg, SafeBefore(cfg, stage), Stage(cfg.intervals[stage], true), Benchmark(cfg, stage + 1, rest),
                 Feed(cfg, judged, c, rest).locked);
    } else {
      LockedStays(cfg, judged, c, rest);
      LocksNow(cfg, SafeBefore(cfg, stage), Stage(cfg.intervals[stage], passed), judged.locked);
    }
  }

  lemma FillingInvariant(cfg: Config, stage: nat, c: string)
    requires Shaped(cfg) && stage < |cfg.intervals|
    ensures Invariant(cfg, Filling(cfg, stage, c, []))
  {
  }

  lemma BenchmarkSteps(cfg: Config, stage: nat, outcomes: seq<Outcome>)
    requires stage < |cfg.intervals| && cfg.perStage > 0 && Enough(cfg, stage, outcomes)
    requires |outcomes| >= cfg.perStage && Enough(cfg, stage + 1, outcomes[cfg.perStage..])
    ensures
      var passed := StagePasses(cfg, stage, outcomes);
      var first := Stage(cfg.intervals[stage], passed);
      Benchmark(cfg, stage, outcomes)
      == if passed && stage + 1 < |cfg.intervals| then [first] + Benchmark(cfg, stage + 1, outcomes[cfg.perStage..]) else [first]
  {
  }

  lemma LocksLater(cfg: Config, lastSafe: Option<real>, first: Stage, rest: seq<Stage>, locked: Option<real>)
    requires first.passed && LocksLike(cfg, Some(first.interval), rest, locked)
    ensures LocksLike(cfg, lastSafe, [first] + rest, locked)
  {
  }

  lemma LocksNow(cfg: Config, lastSafe: Option<real>, last: Stage, locked: Option<real>)
    requires locked == Some(if last.passed then last.interval else Retreat(cfg, lastSafe))
    ensures LocksLike(cfg, lastSafe, [last], locked)
  {
  }
}
