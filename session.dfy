/**
 * One iteration of `NetworkMonitor.monitor_loop` and the operations around
 * it, as functions over the monitor's state: the session counters, the bounded
 * latency history, the anomaly detector, the alerts, the packet loss, and the
 * batched probe log whose destination is one appended sequence of entries.
 */
module Session {

  import opened Base
  import opened Numbers
  import Detector

  /** `ping_history` and `timestamps` are `deque(maxlen=200)`. */
  const HistoryCapacity: nat := 200
  /** `log_buffer_max`: the probe log is written in batches of this size. */
  const LogBufferMax: nat := 10
  /** Consecutive failed probes from which every failure raises a connection alert. */
  const FailureAlertAfter: nat := 3

  /** The `stats` dictionary; `minLatency` is `None` where the source holds infinity. */
  datatype Stats = Stats(
    totalPings: nat,
    successfulPings: nat,
    failedPings: nat,
    minLatency: Option<real>,
    maxLatency: real,
    avgLatency: real,
    packetLoss: real,
    alertsTriggered: nat,
    startTime: Option<int>)

  function InitialStats(): Stats
  {
    Stats(0, 0, 0, None, 0.0, 0.0, 0.0, 0, None)
  }

  /** The monitor's settings that a tick reads. */
  datatype Settings = Settings(server: string, alertThreshold: real, enableAlerts: bool)

  function DefaultSettings(): Settings
  {
    Settings("8.8.8.8", 100.0, true)
  }

  /** The alert a tick hands to its callback. */
  datatype Alert = HighLatency(latency: real) | ConnectionLost(failures: nat)

  /** One probe-log record; its status is `Success` exactly when a latency is present. */
  datatype LogEntry = LogEntry(timestamp: int, server: string, latency: Option<real>, packetLoss: real)

  /** The fields of `NetworkMonitor` that the engine reads and writes. */
  datatype MonitorState = MonitorState(
    monitoring: bool,
    stats: Stats,
    history: seq<real>,
    timestamps: seq<int>,
    countOffset: int,
    failures: nat,
    detector: Detector.State,
    logBuffer: seq<LogEntry>,
    logged: seq<LogEntry>)

  function InitialState(loaded: seq<Detector.Episode>): MonitorState
  {
    MonitorState(false, InitialStats(), [], [], 0, 0, Detector.Initial(loaded), [], [])
  }

  /** `failed / total * 100`, the packet loss in percent. */
  function LossPercent(failed: nat, total: nat): real
    requires total > 0
  {
    (failed as real) / (total as real) * 100.0
  }

  /** Counting the probe and, on success, recording its latency in the history and the extremes. */
  function CountProbe(m: MonitorState, latency: Option<real>, timestamp: int): MonitorState
  {
    var st := m.stats.(totalPings := m.stats.totalPings + 1);
    match latency
    case None =>
      m.(stats := st.(failedPings := st.failedPings + 1), failures := m.failures + 1)
    case Some(l) =>
      var history := PushBounded(m.history, l, HistoryCapacity);
      var lowest := if st.minLatency.None? || l < st.minLatency.value then Some(l) else st.minLatency;
      var highest := if l > st.maxLatency then l else st.maxLatency;
      m.(stats := st.(successfulPings := st.successfulPings + 1, minLatency := lowest,
                      maxLatency := highest, avgLatency := Mean(history)),
         failures := 0, history := history,
         timestamps := PushBounded(m.timestamps, timestamp, HistoryCapacity))
  }

  /** A successful probe goes to the detector, with the probe's 1-based number. */
  function Detect(cfg: Detector.Config, stdev: seq<real> -> real, m: MonitorState, latency: Option<real>, timestamp: int): MonitorState
    requires cfg.Valid()
  {
    match latency
    case None => m
    case Some(l) => m.(detector := Detector.Step(cfg, stdev, m.detector, l, timestamp, m.stats.totalPings))
  }

  /** Which alert the probe raises, if any. */
  function AlertFor(settings: Settings, m: MonitorState, latency: Option<real>): Option<Alert>
  {
    match latency
    case None => if m.failures >= FailureAlertAfter then Some(ConnectionLost(m.failures)) else None
    case Some(l) => if settings.enableAlerts && l > settings.alertThreshold then Some(HighLatency(l)) else None
  }

  function CountAlert(m: MonitorState, alert: Option<Alert>): MonitorState
  {
    if alert.Some? then m.(stats := m.stats.(alertsTriggered := m.stats.alertsTriggered + 1)) else m
  }

  function UpdateLoss(m: MonitorState): MonitorState
  {
    if m.stats.totalPings > 0 then m.(stats := m.stats.(packetLoss := LossPercent(m.stats.failedPings, m.stats.totalPings)))
    else m
  }

  /** `flush_log_buffer`: nothing to do on an empty buffer; a failed write keeps the buffer. */
  function Flush(m: MonitorState, writeOk: bool): MonitorState
  {
    if m.logBuffer == [] || !writeOk then m
    else m.(logged := m.logged + m.logBuffer, logBuffer := [])
  }

  /** `log_to_file`: buffer the probe's entry, and flush once the buffer holds `LogBufferMax` entries. */
  function LogProbe(settings: Settings, m: MonitorState, latency: Option<real>, timestamp: int, writeOk: bool): MonitorState
  {
    var entry := LogEntry(timestamp, settings.server, latency, m.stats.packetLoss);
    var buffered := m.(logBuffer := m.logBuffer + [entry]);
    if |buffered.logBuffer| >= LogBufferMax then Flush(buffered, writeOk) else buffered
  }

  /**
   * One loop iteration, with the probe's result, its time, and whether the
   * log write succeeds given as inputs; the result pairs the alert handed to
   * the callback with the new state.
   */
  function Tick(settings: Settings, cfg: Detector.Config, stdev: seq<real> -> real, m: MonitorState,
                latency: Option<real>, timestamp: int, writeOk: bool): (Option<Alert>, MonitorState)
    requires cfg.Valid()
  {
    var counted := CountProbe(m, latency, timestamp);
    var detected := Detect(cfg, stdev, counted, latency, timestamp);
    var alert := AlertFor(settings, detected, latency);
    var alerted := CountAlert(detected, alert);
    (alert, LogProbe(settings, UpdateLoss(alerted), latency, timestamp, writeOk))
  }

  /** `start_monitoring` with the loop's opening lines: only when not yet monitoring. */
  function Start(m: MonitorState, now: int): MonitorState
  {
    if m.monitoring then m
    else m.(monitoring := true, stats := m.stats.(startTime := Some(now)), failures := 0)
  }

  /** `stop_monitoring`: the loop ends and pending entries are written. */
  function Stop(m: MonitorState, writeOk: bool): MonitorState
  {
    Flush(m.(monitoring := false), writeOk)
  }

  /** `reset_stats`: the session counters and the history start over. */
  function ResetStats(m: MonitorState): MonitorState
  {
    m.(stats := InitialStats(), history := [], timestamps := [], countOffset := 0)
  }

  /** What holds of the session statistics between ticks. */
  predicate StatsInv(m: MonitorState)
  {
    var st := m.stats;
    st.successfulPings + st.failedPings == st.totalPings &&
    |m.history| == |m.timestamps| <= HistoryCapacity &&
    |m.history| <= st.successfulPings &&
    (st.successfulPings > 0 ==> st.minLatency.Some?) &&
    (forall x :: x in m.history ==> st.minLatency.Some? && st.minLatency.value <= x <= st.maxLatency) &&
    (m.history != [] ==> st.avgLatency == Mean(m.history)) &&
    st.packetLoss == (if st.totalPings > 0 then LossPercent(st.failedPings, st.totalPings) else 0.0)
  }

  lemma InitialStateInv(loaded: seq<Detector.Episode>)
    ensures StatsInv(InitialState(loaded))
  {
  }

  /**
   * Every tick counts one probe, as a success or as a failure; a success
   * clears the consecutive-failure count and a failure increments it.
   */
  lemma TickCounts(settings: Settings, cfg: Detector.Config, stdev: seq<real> -> real, m: MonitorState,
                   latency: Option<real>, timestamp: int, writeOk: bool)
    requires cfg.Valid()
    ensures var st := Tick(settings, cfg, stdev, m, latency, timestamp, writeOk).1.stats;
      var failures := Tick(settings, cfg, stdev, m, latency, timestamp, writeOk).1.failures;
      st.totalPings == m.stats.totalPings + 1 &&
      (latency.Some? ==> st.successfulPings == m.stats.successfulPings + 1 &&
                         st.failedPings == m.stats.failedPings && failures == 0) &&
      (latency.None? ==> st.failedPings == m.stats.failedPings + 1 &&
                         st.successfulPings == m.stats.successfulPings && failures == m.failures + 1)
  {
  }

  /**
   * The alerts: a failure raises the connection alert exactly when it is at
   * least the third in a row (whether or not alerts are enabled), a success
   * raises the latency alert exactly when alerts are enabled and the latency
   * exceeds the alert threshold, and each alert is counted once.
   */
  lemma TickAlerts(settings: Settings, cfg: Detector.Config, stdev: seq<real> -> real, m: MonitorState,
                   latency: Option<real>, timestamp: int, writeOk: bool)
    requires cfg.Valid()
    ensures var (alert, m') := Tick(settings, cfg, stdev, m, latency, timestamp, writeOk);
      (latency.None? ==> (alert.Some? <==> m.failures + 1 >= FailureAlertAfter) &&
                         (alert.Some? ==> alert.value == ConnectionLost(m.failures + 1))) &&
      (latency.Some? ==> (alert.Some? <==> settings.enableAlerts && latency.value > settings.alertThreshold) &&
                         (alert.Some? ==> alert.value == HighLatency(latency.value))) &&
      m'.stats.alertsTriggered == m.stats.alertsTriggered + (if alert.Some? then 1 else 0)
  {
  }

  lemma LossPercentRange(failed: nat, total: nat)
    requires 0 < total && failed <= total
    ensures 0.0 <= LossPercent(failed, total) <= 100.0
    ensures LossPercent(failed, total) == 0.0 <==> failed == 0
    ensures LossPercent(failed, total) == 100.0 <==> failed == total
  {
    var q := (failed as real) / (total as real);
    assert q * (total as real) == failed as real;
    if failed == 0 {
      assert q == 0.0;
    }
    if q == 1.0 {
      assert failed as real == total as real;
    }
  }

  lemma CountProbeKeepsInv(m: MonitorState, latency: Option<real>, timestamp: int)
    requires StatsInv(m)
    ensures var c := CountProbe(m, latency, timestamp);
      var st := c.stats;
      st.successfulPings + st.failedPings == st.totalPings &&
      |c.history| == |c.timestamps| <= HistoryCapacity &&
      |c.history| <= st.successfulPings &&
      (st.successfulPings > 0 ==> st.minLatency.Some?) &&
      (forall x :: x in c.history ==> st.minLatency.Some? && st.minLatency.value <= x <= st.maxLatency) &&
      (c.history != [] ==> st.avgLatency == Mean(c.history))
  {
    if latency.Some? {
      var c := CountProbe(m, latency, timestamp);
      var l := latency.value;
      var lo := c.stats.minLatency.value;
      var hi := c.stats.maxLatency;
      assert lo <= l <= hi;
      assert forall x :: x in m.history ==> lo <= x <= hi;
      forall x | x in c.history
        ensures lo <= x <= hi
      {
        PushBoundedMember(m.history, l, HistoryCapacity, x);
      }
    }
  }

  /**
   * Each tick keeps the statistics consistent: the counters add up, the
   * history stays bounded and within the session's minimum and maximum, the
   * average is the history's mean, and the packet loss is the failure rate.
   */
  lemma TickKeepsStatsInv(settings: Settings, cfg: Detector.Config, stdev: seq<real> -> real, m: MonitorState,
                          latency: Option<real>, timestamp: int, writeOk: bool)
    requires cfg.Valid() && StatsInv(m)
    ensures StatsInv(Tick(settings, cfg, stdev, m, latency, timestamp, writeOk).1)
  {
    CountProbeKeepsInv(m, latency, timestamp);
  }

  /** The average the monitor shows lies between the minimum and the maximum it shows. */
  lemma AverageBetweenExtremes(m: MonitorState)
    requires StatsInv(m) && m.history != []
    ensures m.stats.minLatency.Some?
    ensures m.stats.minLatency.value <= m.stats.avgLatency <= m.stats.maxLatency
  {
    assert m.history[0] in m.history;
    MeanBetween(m.history, m.stats.minLatency.value, m.stats.maxLatency);
  }

  /** The packet loss shown after a tick is a percentage, and 0 exactly when no probe failed. */
  lemma TickLossRange(settings: Settings, cfg: Detector.Config, stdev: seq<real> -> real, m: MonitorState,
                      latency: Option<real>, timestamp: int, writeOk: bool)
    requires cfg.Valid() && StatsInv(m)
    ensures var st := Tick(settings, cfg, stdev, m, latency, timestamp, writeOk).1.stats;
      0.0 <= st.packetLoss <= 100.0 && (st.packetLoss == 0.0 <==> st.failedPings == 0)
  {
    TickKeepsStatsInv(settings, cfg, stdev, m, latency, timestamp, writeOk);
    var st := Tick(settings, cfg, stdev, m, latency, timestamp, writeOk).1.stats;
    LossPercentRange(st.failedPings, st.totalPings);
  }

  /**
   * Only successful probes reach the detector, numbered with the updated
   * `totalPings`; an episode opened by this probe therefore starts at the
   * probe's own 1-based number.
   */
  lemma TickDetects(settings: Settings, cfg: Detector.Config, stdev: seq<real> -> real, m: MonitorState,
                    latency: Option<real>, timestamp: int, writeOk: bool)
    requires cfg.Valid()
    ensures var m' := Tick(settings, cfg, stdev, m, latency, timestamp, writeOk).1;
      (latency.None? ==> m'.detector == m.detector) &&
      (latency.Some? ==> m'.detector == Detector.Step(cfg, stdev, m.detector, latency.value, timestamp, m'.stats.totalPings)) &&
      (!m.detector.inAnomaly && m'.detector.inAnomaly ==> m'.detector.startIndex == m'.stats.totalPings)
  {
    if latency.Some? && !m.detector.inAnomaly {
      var counted := CountProbe(m, latency, timestamp);
      Detector.ClassifyKeepsMachine(cfg, stdev, Detector.Observe(m.detector, latency.value), latency.value);
    }
  }

  /**
   * The probe log: each tick adds exactly one entry, carrying the probe's
   * time, server, result and the updated packet loss, after everything
   * already logged or buffered; nothing is lost or duplicated when a write
   * fails, and after a successful write fewer than `LogBufferMax` remain.
   */
  lemma TickLogsOnce(settings: Settings, cfg: Detector.Config, stdev: seq<real> -> real, m: MonitorState,
                     latency: Option<real>, timestamp: int, writeOk: bool)
    requires cfg.Valid()
    ensures var m' := Tick(settings, cfg, stdev, m, latency, timestamp, writeOk).1;
      m'.logged + m'.logBuffer ==
        m.logged + m.logBuffer + [LogEntry(timestamp, settings.server, latency, m'.stats.packetLoss)] &&
      (writeOk ==> |m'.logBuffer| < LogBufferMax) &&
      (!writeOk ==> m'.logged == m.logged)
  {
  }

  /** `flush_log_buffer` on an empty buffer does nothing; otherwise a successful write moves the buffer to the log. */
  lemma FlushRule(m: MonitorState, writeOk: bool)
    ensures m.logBuffer == [] ==> Flush(m, writeOk) == m
    ensures writeOk ==> Flush(m, writeOk).logged == m.logged + m.logBuffer && Flush(m, writeOk).logBuffer == []
    ensures !writeOk ==> Flush(m, writeOk) == m
  {
  }

  /** Stopping ends the loop and, when the write succeeds, leaves nothing pending. */
  lemma StopFlushes(m: MonitorState, writeOk: bool)
    ensures var m' := Stop(m, writeOk);
      !m'.monitoring && m'.logged + m'.logBuffer == m.logged + m.logBuffer &&
      (writeOk ==> m'.logBuffer == []) &&
      m'.stats == m.stats && m'.detector == m.detector
  {
  }

  /**
   * `reset_stats` restores the initial counters and empties the history,
   * keeps the detected episodes, the detector, the log and the loop's
   * failure count, and doing it twice is the same as doing it once.
   */
  lemma ResetStatsRule(m: MonitorState)
    ensures var r := ResetStats(m);
      r.stats == InitialStats() && r.history == [] && r.timestamps == [] && r.countOffset == 0 &&
      r.detector == m.detector && r.detector.detected == m.detector.detected &&
      r.logged == m.logged && r.logBuffer == m.logBuffer &&
      r.failures == m.failures && r.monitoring == m.monitoring &&
      ResetStats(r) == r && StatsInv(r)
  {
  }

  /**
   * The loop as written: when the detector raises on a recording close, the
   * `except` clause of the loop skips the rest of the iteration, that is the
   * alert, the packet-loss update and the probe-log entry.
   */
  function TickAsWritten(settings: Settings, cfg: Detector.Config, stdev: seq<real> -> real, m: MonitorState,
                         latency: Option<real>, timestamp: int, writeOk: bool): (Option<Alert>, MonitorState)
    requires cfg.Valid()
  {
    var counted := CountProbe(m, latency, timestamp);
    match latency
    case Some(l) =>
      var (d, raised) := Detector.StepAsWritten(cfg, stdev, counted.detector, l, timestamp, counted.stats.totalPings);
      if raised then (None, counted.(detector := d))
      else Tick(settings, cfg, stdev, m, latency, timestamp, writeOk)
    case None => Tick(settings, cfg, stdev, m, latency, timestamp, writeOk)
  }

  /**
   * On a recording close the loop as written logs nothing for the probe,
   * leaves the packet loss stale and drops any latency alert, while the
   * corrected tick logs it; on every other probe the two agree.
   */
  lemma TickAsWrittenLosesEntry(settings: Settings, cfg: Detector.Config, stdev: seq<real> -> real, m: MonitorState,
                                latency: real, timestamp: int, writeOk: bool)
    requires cfg.Valid() && Detector.Inv(cfg, m.detector)
    ensures var (wa, w) := TickAsWritten(settings, cfg, stdev, m, Some(latency), timestamp, writeOk);
      var (ca, c) := Tick(settings, cfg, stdev, m, Some(latency), timestamp, writeOk);
      var raised := Detector.RecordsEpisode(cfg, stdev, m.detector, latency);
      (raised ==> wa.None? && w.logged + w.logBuffer == m.logged + m.logBuffer &&
                  w.stats.packetLoss == m.stats.packetLoss &&
                  |c.logged + c.logBuffer| == |m.logged + m.logBuffer| + 1) &&
      (!raised ==> (wa, w) == (ca, c))
  {
    var counted := CountProbe(m, Some(latency), timestamp);
    assert counted.detector == m.detector;
    Detector.StepAsWrittenDiffers(cfg, stdev, m.detector, latency, timestamp, counted.stats.totalPings);
    TickLogsOnce(settings, cfg, stdev, m, Some(latency), timestamp, writeOk);
  }
}
