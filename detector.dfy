/**
 * The anomaly detector of `NetworkMonitor.detect_anomaly`, as a state and a
 * step function over it. A successful probe's latency first feeds the
 * baseline (only outside an anomaly), is then judged against the fixed
 * threshold and, with enough baseline, against the cached mean plus a multiple
 * of the cached standard deviation, and finally drives the two-state machine
 * that opens an episode, extends it, buffers normal samples, and closes it
 * after enough consecutive normal samples, keeping it only if long enough.
 */
module Detector {

  import opened Base
  import opened Numbers

  /** `deque(maxlen=100)` of the baseline latencies. */
  const BaselineCapacity: nat := 100
  /** The cached mean and deviation are recomputed after this many baseline insertions. */
  const CacheRefreshEvery: nat := 10
  /** An episode's baseline figures use the last 50 baseline values ... */
  const PreEpisodeWindow: nat := 50
  /** ... and only when the baseline holds at least 10. */
  const PreEpisodeMinimum: nat := 10

  /** The detector's settings (the settings screen edits all but `anomalyThreshold` and `minSamples`). */
  datatype Config = Config(
    anomalyThreshold: real,
    deviationMultiplier: real,
    minSamples: nat,
    minConsecutiveNormal: nat,
    minPings: nat)
  {
    /**
     * `statistics.stdev` needs two values, and the settings screen offers at
     * least one affected ping and at least three normal pings to close.
     */
    predicate Valid()
    {
      minSamples >= 2 && minPings >= 1 && minConsecutiveNormal >= 1
    }
  }

  /** The values `NetworkMonitor.__init__` sets. */
  function DefaultConfig(): (cfg: Config)
    ensures cfg.Valid()
  {
    Config(100.0, 2.5, 30, 10, 5)
  }

  /** Which criterion opened an episode; `DefaultThreshold` is `getattr`'s fallback `'threshold'`. */
  datatype Reason = DefaultThreshold | FixedThreshold(threshold: real) | StatisticalDeviation(mean: real, limit: real)

  /** One recorded episode, the fields of `anomaly_data`. */
  datatype Episode = Episode(
    startTime: int,
    endTime: int,
    durationSeconds: int,
    avgLatency: real,
    maxLatency: real,
    minLatency: real,
    pingsAffected: nat,
    startPingNumber: nat,
    detectionMethod: Reason,
    baselineAvg: real,
    baselineMin: real,
    baselineMax: real,
    increasePercent: real)

  /** The cached `(mean, stdev)` pair of the baseline; the source sets both together. */
  datatype BaselineStats = BaselineStats(mean: real, stdev: real)

  /** The detector's fields of `NetworkMonitor`. */
  datatype State = State(
    inAnomaly: bool,
    startTime: int,
    startIndex: nat,
    window: seq<real>,
    normalBuffer: seq<real>,
    reason: Reason,
    detected: seq<Episode>,
    baseline: seq<real>,
    cache: Option<BaselineStats>,
    cacheCount: nat)

  /** The state after construction; `detected` holds whatever was loaded from disk. */
  function Initial(detected: seq<Episode>): State
  {
    State(false, 0, 0, [], [], DefaultThreshold, detected, [], None, 0)
  }

  /** The per-sample judgement. */
  datatype Verdict = Normal | Anomalous(reason: Reason)

  /** Feeding the baseline: only while not inside an anomaly. */
  function Observe(d: State, latency: real): State
  {
    if d.inAnomaly then d
    else d.(baseline := PushBounded(d.baseline, latency, BaselineCapacity), cacheCount := d.cacheCount + 1)
  }

  /** The cache refresh: when 10 or more insertions are pending or nothing is cached yet. */
  function Refresh(d: State, stdev: seq<real> -> real): State
    requires |d.baseline| > 0
  {
    if d.cacheCount >= CacheRefreshEvery || d.cache.None? then
      d.(cache := Some(BaselineStats(Mean(d.baseline), stdev(d.baseline))), cacheCount := 0)
    else d
  }

  /** The two criteria, fixed threshold first; the statistical one may refresh the cache. */
  function Classify(cfg: Config, stdev: seq<real> -> real, d: State, latency: real): (Verdict, State)
    requires cfg.Valid()
  {
    if latency >= cfg.anomalyThreshold then (Anomalous(FixedThreshold(cfg.anomalyThreshold)), d)
    else if |d.baseline| >= cfg.minSamples then
      var refreshed := Refresh(d, stdev);
      var stats := refreshed.cache.value;
      var limit := stats.mean + stats.stdev * cfg.deviationMultiplier;
      if latency > limit then (Anomalous(StatisticalDeviation(stats.mean, limit)), refreshed)
      else (Normal, refreshed)
    else (Normal, d)
  }

  /** The record of an episode closing at `endTime`, with the baseline that preceded it. */
  function MakeEpisode(window: seq<real>, baseline: seq<real>, startTime: int, startIndex: nat, reason: Reason,
                       endTime: int): Episode
    requires |window| > 0
  {
    var avg := Mean(window);
    var recent := LastN(baseline, PreEpisodeWindow);
    var hasBaseline := |baseline| >= PreEpisodeMinimum;
    var baselineAvg := if hasBaseline then Mean(recent) else 0.0;
    var baselineMin := if hasBaseline then MinOf(recent) else 0.0;
    var baselineMax := if hasBaseline then MaxOf(recent) else 0.0;
    var increase := if hasBaseline && baselineAvg > 0.0 then (avg - baselineAvg) / baselineAvg * 100.0 else 0.0;
    Episode(startTime, endTime, endTime - startTime, avg, MaxOf(window), MinOf(window),
            |window|, startIndex, reason, baselineAvg, baselineMin, baselineMax, increase)
  }

  /** The episode `d` records when it closes at `endTime`. */
  function EpisodeOf(d: State, endTime: int): Episode
    requires |d.window| > 0
  {
    MakeEpisode(d.window, d.baseline, d.startTime, d.startIndex, d.reason, endTime)
  }

  /** Closing: leave the anomaly, keep the episode only if it affected enough pings, clear the buffers. */
  function Close(cfg: Config, d: State, endTime: int): State
    requires cfg.Valid()
  {
    var kept := if |d.window| >= cfg.minPings then d.detected + [EpisodeOf(d, endTime)] else d.detected;
    d.(inAnomaly := false, window := [], normalBuffer := [], detected := kept)
  }

  /** The state machine proper. */
  function Transition(cfg: Config, d: State, verdict: Verdict, latency: real, timestamp: int, pingIndex: nat): State
    requires cfg.Valid()
  {
    match verdict
    case Anomalous(reason) =>
      if !d.inAnomaly then
        d.(inAnomaly := true, startTime := timestamp, startIndex := pingIndex,
           window := [latency], normalBuffer := [], reason := reason)
      else
        d.(window := d.window + [latency] + d.normalBuffer, normalBuffer := [])
    case Normal =>
      if !d.inAnomaly then d
      else if |d.normalBuffer| + 1 < cfg.minConsecutiveNormal then d.(normalBuffer := d.normalBuffer + [latency])
      else Close(cfg, d, timestamp)
  }

  /** One call of `detect_anomaly(latency, timestamp)`, where `pingIndex` is the current `total_pings`. */
  function Step(cfg: Config, stdev: seq<real> -> real, d: State, latency: real, timestamp: int, pingIndex: nat): State
    requires cfg.Valid()
  {
    var observed := Observe(d, latency);
    var (verdict, classified) := Classify(cfg, stdev, observed, latency);
    Transition(cfg, classified, verdict, latency, timestamp, pingIndex)
  }

  /** The verdict `Step` acts on. */
  function VerdictOf(cfg: Config, stdev: seq<real> -> real, d: State, latency: real): Verdict
    requires cfg.Valid()
  {
    Classify(cfg, stdev, Observe(d, latency), latency).0
  }

  /** What holds of the detector between calls. */
  predicate Inv(cfg: Config, d: State)
  {
    |d.baseline| <= BaselineCapacity &&
    (d.inAnomaly ==> |d.window| >= 1 && |d.normalBuffer| < cfg.minConsecutiveNormal && |d.baseline| >= 1) &&
    (!d.inAnomaly ==> d.window == [] && d.normalBuffer == [])
  }

  lemma InitialInv(cfg: Config, detected: seq<Episode>)
    ensures Inv(cfg, Initial(detected))
  {
  }

  /** Classification touches only the cache. */
  lemma ClassifyKeepsMachine(cfg: Config, stdev: seq<real> -> real, d: State, latency: real)
    requires cfg.Valid()
    ensures var c := Classify(cfg, stdev, d, latency).1;
      c.inAnomaly == d.inAnomaly && c.window == d.window && c.normalBuffer == d.normalBuffer &&
      c.baseline == d.baseline && c.detected == d.detected && c.startTime == d.startTime &&
      c.startIndex == d.startIndex && c.reason == d.reason
  {
  }

  lemma TransitionKeepsInv(cfg: Config, d: State, verdict: Verdict, latency: real, timestamp: int, pingIndex: nat)
    requires cfg.Valid() && Inv(cfg, d) && |d.baseline| >= 1
    ensures Inv(cfg, Transition(cfg, d, verdict, latency, timestamp, pingIndex))
  {
  }

  /** Every step keeps the invariant. */
  lemma StepKeepsInv(cfg: Config, stdev: seq<real> -> real, d: State, latency: real, timestamp: int, pingIndex: nat)
    requires cfg.Valid() && Inv(cfg, d)
    ensures Inv(cfg, Step(cfg, stdev, d, latency, timestamp, pingIndex))
  {
    var observed := Observe(d, latency);
    assert Inv(cfg, observed) && |observed.baseline| >= 1;
    ClassifyKeepsMachine(cfg, stdev, observed, latency);
    var (verdict, classified) := Classify(cfg, stdev, observed, latency);
    TransitionKeepsInv(cfg, classified, verdict, latency, timestamp, pingIndex);
  }

  /** The baseline grows only outside an anomaly, by one bounded append, and never past 100 values. */
  lemma BaselineRule(cfg: Config, stdev: seq<real> -> real, d: State, latency: real, timestamp: int, pingIndex: nat)
    requires cfg.Valid() && |d.baseline| <= BaselineCapacity
    ensures var d' := Step(cfg, stdev, d, latency, timestamp, pingIndex);
      |d'.baseline| <= BaselineCapacity &&
      (d.inAnomaly ==> d'.baseline == d.baseline) &&
      (!d.inAnomaly ==> d'.baseline == PushBounded(d.baseline, latency, BaselineCapacity) &&
                        d'.baseline[|d'.baseline| - 1] == latency)
  {
    ClassifyKeepsMachine(cfg, stdev, Observe(d, latency), latency);
  }

  /**
   * The cache is recomputed exactly when the statistical criterion is reached
   * with 10 pending insertions or nothing cached; it then holds the mean and
   * deviation of the whole baseline and the pending count restarts at 0.
   */
  lemma CacheRule(cfg: Config, stdev: seq<real> -> real, d: State, latency: real)
    requires cfg.Valid()
    ensures var c := Classify(cfg, stdev, d, latency).1;
      var refreshes := latency < cfg.anomalyThreshold && |d.baseline| >= cfg.minSamples &&
                       (d.cacheCount >= CacheRefreshEvery || d.cache.None?);
      (refreshes ==> c.cache == Some(BaselineStats(Mean(d.baseline), stdev(d.baseline))) && c.cacheCount == 0) &&
      (!refreshes ==> c.cache == d.cache && c.cacheCount == d.cacheCount)
  {
  }

  /** A latency at or above the fixed threshold is always anomalous, for that reason, whatever the baseline says. */
  lemma FixedThresholdFirst(cfg: Config, stdev: seq<real> -> real, d: State, latency: real)
    requires cfg.Valid() && latency >= cfg.anomalyThreshold
    ensures Classify(cfg, stdev, d, latency) == (Anomalous(FixedThreshold(cfg.anomalyThreshold)), d)
  {
  }

  /**
   * The statistical test is consulted only below the fixed threshold and with
   * at least `minSamples` baseline values; it flags the latency exactly when
   * it exceeds the cached mean plus `deviationMultiplier` deviations.
   */
  lemma StatisticalCriterion(cfg: Config, stdev: seq<real> -> real, d: State, latency: real)
    requires cfg.Valid() && latency < cfg.anomalyThreshold
    ensures var (v, c) := Classify(cfg, stdev, d, latency);
      (|d.baseline| < cfg.minSamples ==> v == Normal && c == d) &&
      (|d.baseline| >= cfg.minSamples ==>
        c.cache.Some? &&
        var limit := c.cache.value.mean + c.cache.value.stdev * cfg.deviationMultiplier;
        (v.Anomalous? <==> latency > limit) &&
        (v.Anomalous? ==> v.reason == StatisticalDeviation(c.cache.value.mean, limit)))
  {
  }

  /**
   * Opening: outside an anomaly an anomalous sample starts an episode made of
   * that one sample, at this ping's index and time, for the verdict's reason.
   */
  lemma OpenRule(cfg: Config, stdev: seq<real> -> real, d: State, latency: real, timestamp: int, pingIndex: nat)
    requires cfg.Valid() && !d.inAnomaly
    requires VerdictOf(cfg, stdev, d, latency).Anomalous?
    ensures var d' := Step(cfg, stdev, d, latency, timestamp, pingIndex);
      d'.inAnomaly && d'.window == [latency] && d'.normalBuffer == [] &&
      d'.startIndex == pingIndex && d'.startTime == timestamp &&
      d'.reason == VerdictOf(cfg, stdev, d, latency).reason && d'.detected == d.detected
  {
    ClassifyKeepsMachine(cfg, stdev, Observe(d, latency), latency);
  }

  /** Outside an anomaly a normal sample changes nothing but the baseline and its cache. */
  lemma QuietRule(cfg: Config, stdev: seq<real> -> real, d: State, latency: real, timestamp: int, pingIndex: nat)
    requires cfg.Valid() && Inv(cfg, d) && !d.inAnomaly
    requires VerdictOf(cfg, stdev, d, latency) == Normal
    ensures var d' := Step(cfg, stdev, d, latency, timestamp, pingIndex);
      !d'.inAnomaly && d'.window == [] && d'.normalBuffer == [] && d'.detected == d.detected
  {
    ClassifyKeepsMachine(cfg, stdev, Observe(d, latency), latency);
  }

  /**
   * Inside an anomaly: a new anomalous sample folds the buffered normal samples
   * back into the window after it; a normal sample that does not yet complete
   * the confirmation goes to the buffer. Either way one more sample is counted
   * in the episode, and the baseline and the recorded episodes are untouched.
   */
  lemma ContinueRule(cfg: Config, stdev: seq<real> -> real, d: State, latency: real, timestamp: int, pingIndex: nat)
    requires cfg.Valid() && d.inAnomaly
    ensures var v := VerdictOf(cfg, stdev, d, latency);
      var d' := Step(cfg, stdev, d, latency, timestamp, pingIndex);
      d'.baseline == d.baseline &&
      (v.Anomalous? ==>
        d'.inAnomaly && d'.window == d.window + [latency] + d.normalBuffer && d'.normalBuffer == [] &&
        d'.detected == d.detected && d'.startIndex == d.startIndex && d'.startTime == d.startTime &&
        d'.reason == d.reason) &&
      (v == Normal && |d.normalBuffer| + 1 < cfg.minConsecutiveNormal ==>
        d'.inAnomaly && d'.window == d.window && d'.normalBuffer == d.normalBuffer + [latency] &&
        d'.detected == d.detected && d'.startIndex == d.startIndex && d'.startTime == d.startTime &&
        d'.reason == d.reason) &&
      (d'.inAnomaly ==> |d'.window| + |d'.normalBuffer| == |d.window| + |d.normalBuffer| + 1)
  {
    ClassifyKeepsMachine(cfg, stdev, Observe(d, latency), latency);
  }

  /** The statistical limit the next sample is judged against: the cached one, refreshed if due. */
  function Limit(cfg: Config, stdev: seq<real> -> real, d: State): real
    requires |d.baseline| > 0
  {
    var stats := Refresh(d, stdev).cache.value;
    stats.mean + stats.stdev * cfg.deviationMultiplier
  }

  /** A latency neither criterion flags in state `d`. */
  predicate Calm(cfg: Config, stdev: seq<real> -> real, d: State, latency: real)
    requires cfg.Valid()
  {
    latency < cfg.anomalyThreshold && (|d.baseline| >= cfg.minSamples ==> latency <= Limit(cfg, stdev, d))
  }

  /**
   * Inside an anomaly the baseline is frozen, and so is the limit: the cache is
   * refreshed at most once (no insertion is pending afterwards), from the same
   * baseline. A sample is normal there exactly when it is calm.
   */
  lemma FrozenInsideAnomaly(cfg: Config, stdev: seq<real> -> real, d: State, latency: real, timestamp: int, pingIndex: nat)
    requires cfg.Valid() && Inv(cfg, d) && d.inAnomaly
    ensures VerdictOf(cfg, stdev, d, latency) == Normal <==> Calm(cfg, stdev, d, latency)
    ensures var d' := Step(cfg, stdev, d, latency, timestamp, pingIndex);
      d'.baseline == d.baseline && Limit(cfg, stdev, d') == Limit(cfg, stdev, d)
  {
    ClassifyKeepsMachine(cfg, stdev, d, latency);
    CacheRule(cfg, stdev, d, latency);
  }

  /** What a recorded episode says about the window it summarises. */
  predicate Summarises(e: Episode, window: seq<real>, startIndex: nat, reason: Reason, startTime: int, endTime: int)
  {
    e.pingsAffected == |window| &&
    e.minLatency in window && e.maxLatency in window &&
    (forall x :: x in window ==> e.minLatency <= x <= e.maxLatency) &&
    e.minLatency <= e.avgLatency <= e.maxLatency &&
    e.startPingNumber == startIndex && e.detectionMethod == reason &&
    e.startTime == startTime && e.endTime == endTime && e.durationSeconds == endTime - startTime
  }

  lemma EpisodeSummarises(d: State, endTime: int)
    requires |d.window| > 0
    ensures Summarises(EpisodeOf(d, endTime), d.window, d.startIndex, d.reason, d.startTime, endTime)
  {
    MeanBetweenMinAndMax(d.window);
  }

  /**
   * Closing: the normal sample that completes the confirmation ends the
   * anomaly and clears both buffers; the episode is recorded, summarising the
   * window, if and only if the window holds at least `minPings` samples.
   */
  lemma CloseRule(cfg: Config, stdev: seq<real> -> real, d: State, latency: real, timestamp: int, pingIndex: nat)
    requires cfg.Valid() && Inv(cfg, d) && d.inAnomaly
    requires VerdictOf(cfg, stdev, d, latency) == Normal
    requires |d.normalBuffer| + 1 >= cfg.minConsecutiveNormal
    ensures var d' := Step(cfg, stdev, d, latency, timestamp, pingIndex);
      !d'.inAnomaly && d'.window == [] && d'.normalBuffer == [] && d'.baseline == d.baseline &&
      (|d'.detected| == |d.detected| + 1 <==> |d.window| >= cfg.minPings) &&
      (|d.window| >= cfg.minPings ==>
        d'.detected[..|d.detected|] == d.detected &&
        Summarises(d'.detected[|d.detected|], d.window, d.startIndex, d.reason, d.startTime, timestamp)) &&
      (|d.window| < cfg.minPings ==> d'.detected == d.detected)
  {
    var observed := Observe(d, latency);
    ClassifyKeepsMachine(cfg, stdev, observed, latency);
    var classified := Classify(cfg, stdev, observed, latency).1;
    if |d.window| >= cfg.minPings {
      EpisodeSummarises(classified, timestamp);
    }
  }

  lemma IncreaseSign(a: real, b: real)
    requires b > 0.0
    ensures (a - b) / b * 100.0 > 0.0 <==> a > b
    ensures (a - b) / b * 100.0 < 0.0 <==> a < b
  {
    var q := (a - b) / b;
    assert q * b == a - b;
    if q > 0.0 { assert q * b > 0.0; }
    if q < 0.0 { assert q * b < 0.0; }
    if a > b { assert q > 0.0; }
    if a < b { assert q < 0.0; }
  }

  /**
   * The baseline figures of an episode: all zero with fewer than 10 baseline
   * values; otherwise minimum, mean and maximum of the last 50 of them. The
   * increase is positive exactly when there is a positive baseline mean and
   * the episode's mean exceeds it, and negative exactly when it is below it.
   */
  lemma IncreasePercentRule(d: State, endTime: int)
    requires |d.window| > 0
    ensures var e := EpisodeOf(d, endTime);
      (|d.baseline| < PreEpisodeMinimum ==>
        e.baselineAvg == 0.0 && e.baselineMin == 0.0 && e.baselineMax == 0.0 && e.increasePercent == 0.0) &&
      (|d.baseline| >= PreEpisodeMinimum ==>
        e.baselineMin <= e.baselineAvg <= e.baselineMax &&
        e.baselineMin in LastN(d.baseline, PreEpisodeWindow) &&
        e.baselineMax in LastN(d.baseline, PreEpisodeWindow) &&
        (forall x :: x in LastN(d.baseline, PreEpisodeWindow) ==> e.baselineMin <= x <= e.baselineMax) &&
        e.baselineAvg == Mean(LastN(d.baseline, PreEpisodeWindow))) &&
      (e.increasePercent > 0.0 <==>
        |d.baseline| >= PreEpisodeMinimum && e.baselineAvg > 0.0 && e.avgLatency > e.baselineAvg) &&
      (e.increasePercent < 0.0 <==>
        |d.baseline| >= PreEpisodeMinimum && e.baselineAvg > 0.0 && e.avgLatency < e.baselineAvg)
  {
    var e := EpisodeOf(d, endTime);
    if |d.baseline| >= PreEpisodeMinimum {
      var recent := LastN(d.baseline, PreEpisodeWindow);
      MeanBetweenMinAndMax(recent);
      if e.baselineAvg > 0.0 {
        IncreaseSign(e.avgLatency, e.baselineAvg);
      }
    }
  }

  /** One successful probe as the detector sees it. */
  datatype Sample = Sample(latency: real, time: int, index: nat)

  /** Consecutive calls of `detect_anomaly`, oldest sample first. */
  function Run(cfg: Config, stdev: seq<real> -> real, d: State, samples: seq<Sample>): State
    requires cfg.Valid()
    decreases |samples|
  {
    if samples == [] then d
    else
      var last := samples[|samples| - 1];
      Step(cfg, stdev, Run(cfg, stdev, d, samples[..|samples| - 1]), last.latency, last.time, last.index)
  }

  function Latencies(samples: seq<Sample>): (r: seq<real>)
    ensures |r| == |samples|
    ensures forall i :: 0 <= i < |samples| ==> r[i] == samples[i].latency
  {
    if samples == [] then [] else Latencies(samples[..|samples| - 1]) + [samples[|samples| - 1].latency]
  }

  lemma {:induction false} RunAppend(cfg: Config, stdev: seq<real> -> real, d: State, a: seq<Sample>, b: seq<Sample>)
    requires cfg.Valid()
    ensures Run(cfg, stdev, d, a + b) == Run(cfg, stdev, Run(cfg, stdev, d, a), b)
    decreases |b|
  {
    if b == [] {
      assert a + b == a;
    } else {
      assert (a + b)[..|a + b| - 1] == a + b[..|b| - 1];
      RunAppend(cfg, stdev, d, a, b[..|b| - 1]);
    }
  }

  /** A run of samples at or above the fixed threshold opens one episode holding exactly those samples. */
  lemma {:induction false} SpikeRun(cfg: Config, stdev: seq<real> -> real, d: State, spike: seq<Sample>)
    requires cfg.Valid() && Inv(cfg, d) && !d.inAnomaly && |spike| >= 1
    requires forall i :: 0 <= i < |spike| ==> spike[i].latency >= cfg.anomalyThreshold
    ensures var d' := Run(cfg, stdev, d, spike);
      Inv(cfg, d') && d'.inAnomaly && d'.window == Latencies(spike) && d'.normalBuffer == [] &&
      d'.detected == d.detected && d'.startIndex == spike[0].index && d'.startTime == spike[0].time &&
      d'.reason == FixedThreshold(cfg.anomalyThreshold) &&
      d'.baseline == PushBounded(d.baseline, spike[0].latency, BaselineCapacity)
    decreases |spike|
  {
    var init := spike[..|spike| - 1];
    var last := spike[|spike| - 1];
    var prev := Run(cfg, stdev, d, init);
    if init == [] {
      assert Run(cfg, stdev, d, []) == d;
      FixedThresholdFirst(cfg, stdev, Observe(d, last.latency), last.latency);
      OpenRule(cfg, stdev, d, last.latency, last.time, last.index);
      BaselineRule(cfg, stdev, d, last.latency, last.time, last.index);
      StepKeepsInv(cfg, stdev, d, last.latency, last.time, last.index);
    } else {
      SpikeRun(cfg, stdev, d, init);
      FixedThresholdFirst(cfg, stdev, Observe(prev, last.latency), last.latency);
      ContinueRule(cfg, stdev, prev, last.latency, last.time, last.index);
      StepKeepsInv(cfg, stdev, prev, last.latency, last.time, last.index);
      assert Latencies(spike) == Latencies(init) + [last.latency];
    }
  }

  /**
   * Inside an anomaly, fewer than `minConsecutiveNormal` calm samples are only
   * buffered: the episode stays open, nothing is recorded, and the baseline
   * and the limit stay as they were.
   */
  lemma {:induction false} CalmRun(cfg: Config, stdev: seq<real> -> real, d: State, calm: seq<Sample>)
    requires cfg.Valid() && Inv(cfg, d) && d.inAnomaly && d.normalBuffer == []
    requires |calm| < cfg.minConsecutiveNormal
    requires forall i :: 0 <= i < |calm| ==> Calm(cfg, stdev, d, calm[i].latency)
    ensures var d' := Run(cfg, stdev, d, calm);
      Inv(cfg, d') && d'.inAnomaly && d'.window == d.window && d'.normalBuffer == Latencies(calm) &&
      d'.detected == d.detected && d'.baseline == d.baseline && Limit(cfg, stdev, d') == Limit(cfg, stdev, d) &&
      d'.startIndex == d.startIndex && d'.startTime == d.startTime && d'.reason == d.reason
    decreases |calm|
  {
    if calm != [] {
      var init := calm[..|calm| - 1];
      var last := calm[|calm| - 1];
      CalmRun(cfg, stdev, d, init);
      var prev := Run(cfg, stdev, d, init);
      assert Calm(cfg, stdev, d, last.latency);
      assert Calm(cfg, stdev, prev, last.latency);
      FrozenInsideAnomaly(cfg, stdev, prev, last.latency, last.time, last.index);
      ContinueRule(cfg, stdev, prev, last.latency, last.time, last.index);
      StepKeepsInv(cfg, stdev, prev, last.latency, last.time, last.index);
      assert Latencies(calm) == Latencies(init) + [last.latency];
    }
  }

  /**
   * Inside an anomaly, any samples, calm or not, fewer than the confirmation
   * needs counting the ones already buffered, keep the episode open: each is
   * buffered or folded into the window, and nothing is recorded.
   */
  lemma {:induction false} OpenRun(cfg: Config, stdev: seq<real> -> real, d: State, samples: seq<Sample>)
    requires cfg.Valid() && Inv(cfg, d) && d.inAnomaly
    requires |d.normalBuffer| + |samples| < cfg.minConsecutiveNormal
    ensures var d' := Run(cfg, stdev, d, samples);
      Inv(cfg, d') && d'.inAnomaly && d'.detected == d.detected && d'.baseline == d.baseline &&
      d'.startIndex == d.startIndex && d'.startTime == d.startTime && d'.reason == d.reason &&
      d.window <= d'.window && |d'.normalBuffer| <= |d.normalBuffer| + |samples| &&
      |d'.window| + |d'.normalBuffer| == |d.window| + |d.normalBuffer| + |samples|
    decreases |samples|
  {
    if samples != [] {
      var init := samples[..|samples| - 1];
      var last := samples[|samples| - 1];
      OpenRun(cfg, stdev, d, init);
      var prev := Run(cfg, stdev, d, init);
      ContinueRule(cfg, stdev, prev, last.latency, last.time, last.index);
      StepKeepsInv(cfg, stdev, prev, last.latency, last.time, last.index);
    }
  }

  /**
   * A whole episode opened by the fixed threshold: a spike of samples at or
   * above it, then `minConsecutiveNormal` samples that neither criterion flags
   * against the limit in force after the spike. The episode opens with the
   * first spike sample, closes with the last calm sample, and is recorded,
   * summarising exactly the spike, if and only if the spike is at least
   * `minPings` long.
   */
  lemma EpisodeScenario(cfg: Config, stdev: seq<real> -> real, d: State, spike: seq<Sample>, calm: seq<Sample>, closing: Sample)
    requires cfg.Valid() && Inv(cfg, d) && !d.inAnomaly
    requires |spike| >= 1 && forall i :: 0 <= i < |spike| ==> spike[i].latency >= cfg.anomalyThreshold
    requires |calm| + 1 == cfg.minConsecutiveNormal
    requires forall i :: 0 <= i < |calm| ==> Calm(cfg, stdev, Run(cfg, stdev, d, spike), calm[i].latency)
    requires Calm(cfg, stdev, Run(cfg, stdev, d, spike), closing.latency)
    ensures var d' := Run(cfg, stdev, d, spike + calm + [closing]);
      !d'.inAnomaly && d'.window == [] && d'.normalBuffer == [] &&
      (|d'.detected| == |d.detected| + 1 <==> |spike| >= cfg.minPings) &&
      (|spike| >= cfg.minPings ==>
        d'.detected[..|d.detected|] == d.detected &&
        Summarises(d'.detected[|d.detected|], Latencies(spike), spike[0].index,
                   FixedThreshold(cfg.anomalyThreshold), spike[0].time, closing.time)) &&
      (|spike| < cfg.minPings ==> d'.detected == d.detected)
  {
    SpikeRun(cfg, stdev, d, spike);
    var spiked := Run(cfg, stdev, d, spike);
    CalmRun(cfg, stdev, spiked, calm);
    RunAppend(cfg, stdev, d, spike, calm);
    var calmed := Run(cfg, stdev, d, spike + calm);
    var all := spike + calm + [closing];
    assert all[..|all| - 1] == spike + calm;
    assert Calm(cfg, stdev, calmed, closing.latency);
    FrozenInsideAnomaly(cfg, stdev, calmed, closing.latency, closing.time, closing.index);
    CloseRule(cfg, stdev, calmed, closing.latency, closing.time, closing.index);
  }

  /**
   * After a spike opens an episode, any samples fewer than `minConsecutiveNormal`
   * leave it open and unrecorded, whatever the baseline: the spike stays at
   * the head of the window and every later sample is in the window or the buffer.
   */
  lemma EpisodeStaysOpen(cfg: Config, stdev: seq<real> -> real, d: State, spike: seq<Sample>, more: seq<Sample>)
    requires cfg.Valid() && Inv(cfg, d) && !d.inAnomaly
    requires |spike| >= 1 && forall i :: 0 <= i < |spike| ==> spike[i].latency >= cfg.anomalyThreshold
    requires |more| < cfg.minConsecutiveNormal
    ensures var d' := Run(cfg, stdev, d, spike + more);
      d'.inAnomaly && d'.detected == d.detected && Latencies(spike) <= d'.window &&
      |d'.window| + |d'.normalBuffer| == |spike| + |more| &&
      d'.startIndex == spike[0].index && d'.startTime == spike[0].time &&
      d'.baseline == PushBounded(d.baseline, spike[0].latency, BaselineCapacity)
  {
    SpikeRun(cfg, stdev, d, spike);
    OpenRun(cfg, stdev, Run(cfg, stdev, d, spike), more);
    RunAppend(cfg, stdev, d, spike, more);
  }

  /** The close that records an episode, where the code as written stops with `NameError`. */
  predicate RecordsEpisode(cfg: Config, stdev: seq<real> -> real, d: State, latency: real)
    requires cfg.Valid()
  {
    d.inAnomaly && VerdictOf(cfg, stdev, d, latency) == Normal &&
    |d.normalBuffer| + 1 >= cfg.minConsecutiveNormal && |d.window| >= cfg.minPings
  }

  /**
   * `detect_anomaly` as written: on the close that records an episode, the
   * summary message names an undefined variable, so after the episode is
   * appended the call raises (the second component) before clearing the
   * window and the buffer, which still holds the closing sample.
   */
  function StepAsWritten(cfg: Config, stdev: seq<real> -> real, d: State, latency: real, timestamp: int, pingIndex: nat): (State, bool)
    requires cfg.Valid()
  {
    var observed := Observe(d, latency);
    var (verdict, classified) := Classify(cfg, stdev, observed, latency);
    if RecordsEpisode(cfg, stdev, d, latency) then
      (classified.(inAnomaly := false, normalBuffer := classified.normalBuffer + [latency],
                   detected := classified.detected + [EpisodeOf(classified, timestamp)]), true)
    else
      (Transition(cfg, classified, verdict, latency, timestamp, pingIndex), false)
  }

  /**
   * The code as written raises exactly on a recording close, where it records
   * the same episodes as the corrected step but leaves the window and buffer
   * filled outside an anomaly; on every other sample the two agree.
   */
  lemma StepAsWrittenDiffers(cfg: Config, stdev: seq<real> -> real, d: State, latency: real, timestamp: int, pingIndex: nat)
    requires cfg.Valid() && Inv(cfg, d)
    ensures var (w, raised) := StepAsWritten(cfg, stdev, d, latency, timestamp, pingIndex);
      var c := Step(cfg, stdev, d, latency, timestamp, pingIndex);
      (raised <==> RecordsEpisode(cfg, stdev, d, latency)) &&
      (!raised ==> w == c) &&
      (raised ==> w.detected == c.detected && !w.inAnomaly && w.window != [] && !Inv(cfg, w))
  {
    var observed := Observe(d, latency);
    ClassifyKeepsMachine(cfg, stdev, observed, latency);
  }

  /** `count` probes of the same latency, numbered and timed from `first` on. */
  function Repeated(latency: real, first: nat, count: nat): (r: seq<Sample>)
    ensures |r| == count
    ensures forall i :: 0 <= i < count ==> r[i] == Sample(latency, first + i, first + i)
  {
    seq(count, (i: nat) => Sample(latency, first + i, first + i))
  }

  /**
   * With the default settings, five probes of 150 ms followed by ten of 20 ms
   * reach the recording close on the fifteenth probe, where the code as
   * written raises.
   */
  lemma RecordingCloseReachable(stdev: seq<real> -> real)
    ensures var d := Run(DefaultConfig(), stdev, Initial([]), Repeated(150.0, 1, 5) + Repeated(20.0, 6, 9));
      RecordsEpisode(DefaultConfig(), stdev, d, 20.0) &&
      StepAsWritten(DefaultConfig(), stdev, d, 20.0, 15, 15).1
  {
    var cfg := DefaultConfig();
    var spike := Repeated(150.0, 1, 5);
    var calm := Repeated(20.0, 6, 9);
    InitialInv(cfg, []);
    SpikeRun(cfg, stdev, Initial([]), spike);
    var spiked := Run(cfg, stdev, Initial([]), spike);
    assert |spiked.baseline| == 1;
    CalmRun(cfg, stdev, spiked, calm);
    RunAppend(cfg, stdev, Initial([]), spike, calm);
    var d := Run(cfg, stdev, Initial([]), spike + calm);
    StatisticalCriterion(cfg, stdev, Observe(d, 20.0), 20.0);
    StepAsWrittenDiffers(cfg, stdev, d, 20.0, 15, 15);
  }
}
