/**
 * `NetworkMonitor` as an object whose methods update its fields in place,
 * each proved against the functions of `Session` and `Detector`. The probe
 * itself, the clock and the success of a disk write are the methods' inputs;
 * the settings, the detector configuration and `statistics.stdev` are fixed
 * when the object is built.
 */
module Monitor {

  import opened Base
  import opened Numbers
  import Detector
  import Session

  class NetworkMonitor {

    const settings: Session.Settings
    const cfg: Detector.Config
    const stdev: seq<real> -> real

    var monitoring: bool
    var stats: Session.Stats
    var history: seq<real>
    var timestamps: seq<int>
    var countOffset: int
    /** The local `consecutive_failures` of the monitoring loop. */
    var failures: nat

    var inAnomaly: bool
    var anomalyStartTime: int
    var anomalyStartIndex: nat
    var anomalyWindow: seq<real>
    var normalBuffer: seq<real>
    var anomalyReason: Detector.Reason
    var detectedAnomalies: seq<Detector.Episode>
    var baseline: seq<real>
    var cachedMean: Option<real>
    var cachedStdev: Option<real>
    var cacheCount: nat

    var logBuffer: seq<Session.LogEntry>
    /** Every probe-log entry written so far, in order. */
    var logged: seq<Session.LogEntry>

    function Cache(): Option<Detector.BaselineStats>
      reads this
    {
      if cachedMean.Some? && cachedStdev.Some? then Some(Detector.BaselineStats(cachedMean.value, cachedStdev.value))
      else None
    }

    /** The detector's fields, as the value `Detector` reasons about. */
    function DetectorState(): Detector.State
      reads this
    {
      Detector.State(inAnomaly, anomalyStartTime, anomalyStartIndex, anomalyWindow, normalBuffer, anomalyReason,
                     detectedAnomalies, baseline, Cache(), cacheCount)
    }

    /** All the fields, as the value `Session` reasons about. */
    function State(): Session.MonitorState
      reads this
    {
      Session.MonitorState(monitoring, stats, history, timestamps, countOffset, failures, DetectorState(), logBuffer, logged)
    }

    /** The settings are usable and the mean and deviation are cached together. */
    predicate Configured()
      reads this
    {
      cfg.Valid() && (cachedMean.Some? <==> cachedStdev.Some?)
    }

    /** Between calls of `detect_anomaly`: the detector's invariant holds too. */
    predicate Coherent()
      reads this
    {
      Configured() && Detector.Inv(cfg, DetectorState())
    }

    /** Between iterations of the loop: the statistics are consistent as well. */
    predicate Valid()
      reads this
    {
      Coherent() && Session.StatsInv(State())
    }

    /** `__init__`, with the episodes `load_anomalies` found on disk. */
    constructor (settings: Session.Settings, cfg: Detector.Config, stdev: seq<real> -> real, loaded: seq<Detector.Episode>)
      requires cfg.Valid()
      ensures Valid()
      ensures this.settings == settings && this.cfg == cfg && this.stdev == stdev
      ensures State() == Session.InitialState(loaded)
    {
      this.settings := settings;
      this.cfg := cfg;
      this.stdev := stdev;
      monitoring := false;
      stats := Session.InitialStats();
      history := [];
      timestamps := [];
      countOffset := 0;
      failures := 0;
      inAnomaly := false;
      anomalyStartTime := 0;
      anomalyStartIndex := 0;
      anomalyWindow := [];
      normalBuffer := [];
      anomalyReason := Detector.DefaultThreshold;
      detectedAnomalies := loaded;
      baseline := [];
      cachedMean := None;
      cachedStdev := None;
      cacheCount := 0;
      logBuffer := [];
      logged := [];
    }

    /** `start_monitoring` together with the first lines of the loop it starts. */
    method StartMonitoring(now: int)
      requires Valid()
      modifies this
      ensures Valid()
      ensures State() == Session.Start(old(State()), now)
    {
      if !monitoring {
        monitoring := true;
        stats := stats.(startTime := Some(now));
        failures := 0;
      }
    }

    /** `flush_log_buffer`: every buffered entry is written in order, then the buffer is emptied. */
    method FlushLogBuffer(writeOk: bool)
      requires Valid()
      modifies this
      ensures Valid()
      ensures State() == Session.Flush(old(State()), writeOk)
    {
      if logBuffer == [] {
        return;
      }
      if writeOk {
        var written := logged;
        var i := 0;
        while i < |logBuffer|
          invariant 0 <= i <= |logBuffer|
          invariant written == logged + logBuffer[..i]
        {
          written := written + [logBuffer[i]];
          i := i + 1;
        }
        assert logBuffer[..i] == logBuffer;
        logged := written;
        logBuffer := [];
      }
    }

    /** `log_to_file`: one entry per probe, written out once `LogBufferMax` are pending. */
    method LogToFile(timestamp: int, latency: Option<real>, writeOk: bool)
      requires Valid()
      modifies this
      ensures Valid()
      ensures State() == Session.LogProbe(settings, old(State()), latency, timestamp, writeOk)
    {
      logBuffer := logBuffer + [Session.LogEntry(timestamp, settings.server, latency, stats.packetLoss)];
      if |logBuffer| >= Session.LogBufferMax {
        FlushLogBuffer(writeOk);
      }
    }

    /** `stop_monitoring`. */
    method StopMonitoring(writeOk: bool)
      requires Valid()
      modifies this
      ensures Valid()
      ensures State() == Session.Stop(old(State()), writeOk)
    {
      monitoring := false;
      FlushLogBuffer(writeOk);
    }

    /** `reset_stats`: the detected episodes stay. */
    method ResetStats()
      requires Valid()
      modifies this
      ensures Valid()
      ensures State() == Session.ResetStats(old(State()))
    {
      stats := Session.InitialStats();
      history := [];
      timestamps := [];
      countOffset := 0;
    }

    /** `detect_anomaly(latency, timestamp)`. */
    method DetectAnomaly(latency: real, timestamp: int)
      requires Coherent()
      modifies this
      ensures Coherent()
      ensures State() == old(State()).(detector := Detector.Step(cfg, stdev, old(DetectorState()), latency, timestamp, stats.totalPings))
    {
      Detector.StepKeepsInv(cfg, stdev, DetectorState(), latency, timestamp, stats.totalPings);
      FeedBaseline(latency);
      var verdict := Judge(latency);
      Advance(verdict, latency, timestamp);
    }

    /** The baseline is fed only outside an anomaly. */
    method FeedBaseline(latency: real)
      requires Configured()
      modifies this
      ensures Configured()
      ensures State() == old(State()).(detector := Detector.Observe(old(DetectorState()), latency))
    {
      if !inAnomaly {
        ghost var m := State();
        baseline := PushBounded(baseline, latency, Detector.BaselineCapacity);
        cacheCount := cacheCount + 1;
        assert Cache() == m.detector.cache;
        assert DetectorState() == m.detector.(baseline := baseline, cacheCount := cacheCount);
        assert State() == m.(detector := DetectorState());
      }
    }

    /** The two criteria, fixed threshold first; `is_anomaly` and `anomaly_reason` together are the verdict. */
    method Judge(latency: real) returns (verdict: Detector.Verdict)
      requires Configured()
      modifies this
      ensures Configured()
      ensures (verdict, DetectorState()) == Detector.Classify(cfg, stdev, old(DetectorState()), latency)
      ensures State() == old(State()).(detector := DetectorState())
    {
      verdict := Detector.Normal;
      if latency >= cfg.anomalyThreshold {
        verdict := Detector.Anomalous(Detector.FixedThreshold(cfg.anomalyThreshold));
      } else if |baseline| >= cfg.minSamples {
        RefreshCache();
        var baselineMean := cachedMean.value;
        var baselineStdev := cachedStdev.value;
        assert Cache() == Some(Detector.BaselineStats(baselineMean, baselineStdev));
        var limit := baselineMean + baselineStdev * cfg.deviationMultiplier;
        if latency > limit {
          verdict := Detector.Anomalous(Detector.StatisticalDeviation(baselineMean, limit));
        }
      }
    }

    /** The cached mean and deviation are recomputed every 10 baseline insertions, or when nothing is cached. */
    method RefreshCache()
      requires Configured() && |baseline| > 0
      modifies this
      ensures Configured() && cachedMean.Some?
      ensures State() == old(State()).(detector := Detector.Refresh(old(DetectorState()), stdev))
    {
      ghost var m := State();
      if cacheCount >= Detector.CacheRefreshEvery || cachedMean.None? {
        cachedMean := Some(Mean(baseline));
        cachedStdev := Some(stdev(baseline));
        cacheCount := 0;
        assert Cache() == Some(Detector.BaselineStats(Mean(baseline), stdev(baseline)));
        assert State() == m.(detector := Detector.Refresh(m.detector, stdev));
      }
    }

    /** The state machine: open, extend, buffer, or close and keep the episode if long enough. */
    method Advance(verdict: Detector.Verdict, latency: real, timestamp: int)
      requires Configured()
      modifies this
      ensures Configured()
      ensures State() == old(State()).(detector := Detector.Transition(cfg, old(DetectorState()), verdict, latency, timestamp, stats.totalPings))
    {
      if verdict.Anomalous? {
        if !inAnomaly {
          Open(verdict.reason, latency, timestamp);
        } else {
          Extend(latency);
        }
      } else if inAnomaly {
        Confirm(latency, timestamp);
      }
    }

    /** The start of an anomaly. */
    method Open(reason: Detector.Reason, latency: real, timestamp: int)
      requires Configured()
      modifies this
      ensures Configured()
      ensures State() == old(State()).(detector := old(DetectorState()).(
        inAnomaly := true, startTime := timestamp, startIndex := stats.totalPings,
        window := [latency], normalBuffer := [], reason := reason))
    {
      ghost var m := State();
      inAnomaly := true;
      anomalyStartTime := timestamp;
      anomalyStartIndex := stats.totalPings;
      anomalyWindow := [latency];
      normalBuffer := [];
      anomalyReason := reason;
      assert Cache() == m.detector.cache;
      assert State() == m.(detector := DetectorState());
    }

    /** An anomalous sample during an anomaly: it and the buffered normal samples join the window. */
    method Extend(latency: real)
      requires Configured()
      modifies this
      ensures Configured()
      ensures State() == old(State()).(detector := old(DetectorState()).(
        window := old(anomalyWindow) + [latency] + old(normalBuffer), normalBuffer := []))
    {
      ghost var m := State();
      anomalyWindow := anomalyWindow + [latency];
      if normalBuffer != [] {
        anomalyWindow := anomalyWindow + normalBuffer;
        normalBuffer := [];
      }
      assert anomalyWindow == m.detector.window + [latency] + m.detector.normalBuffer;
      assert Cache() == m.detector.cache;
      assert State() == m.(detector := DetectorState());
    }

    /** A normal sample during an anomaly: buffered, and closing the anomaly once enough are buffered. */
    method Confirm(latency: real, timestamp: int)
      requires Configured() && inAnomaly
      modifies this
      ensures Configured()
      ensures State() == old(State()).(detector := Detector.Transition(cfg, old(DetectorState()), Detector.Normal, latency, timestamp, stats.totalPings))
    {
      ghost var m := State();
      ghost var d := DetectorState();
      normalBuffer := normalBuffer + [latency];
      assert Cache() == d.cache;
      assert State() == m.(detector := d.(normalBuffer := d.normalBuffer + [latency]));
      if |normalBuffer| >= cfg.minConsecutiveNormal {
        CloseEpisode(timestamp);
      }
    }

    /** The confirmed end of an anomaly: the episode is kept if it affected enough pings, and the buffers are cleared. */
    method CloseEpisode(timestamp: int)
      requires Configured()
      modifies this
      ensures Configured()
      ensures State() == old(State()).(detector := Detector.Close(cfg, old(DetectorState()), timestamp))
    {
      ghost var m := State();
      ghost var d := DetectorState();
      var kept := detectedAnomalies;
      if |anomalyWindow| >= cfg.minPings {
        kept := kept + [Detector.MakeEpisode(anomalyWindow, baseline, anomalyStartTime, anomalyStartIndex,
                                             anomalyReason, timestamp)];
      }
      assert kept == Detector.Close(cfg, d, timestamp).detected;
      inAnomaly := false;
      detectedAnomalies := kept;
      anomalyWindow := [];
      normalBuffer := [];
      assert Cache() == d.cache;
      assert DetectorState() == Detector.Close(cfg, d, timestamp);
      assert State() == m.(detector := DetectorState());
    }

    /** The loop's counting: one more probe, a success or a failure, and on success the history and extremes. */
    method RecordProbe(latency: Option<real>, timestamp: int)
      requires Configured()
      modifies this
      ensures Configured()
      ensures State() == Session.CountProbe(old(State()), latency, timestamp)
    {
      match latency {
        case Some(l) => RecordSuccess(l, timestamp);
        case None => RecordFailure();
      }
    }

    method RecordSuccess(latency: real, timestamp: int)
      requires Configured()
      modifies this
      ensures Configured()
      ensures State() == Session.CountProbe(old(State()), Some(latency), timestamp)
    {
      ghost var m := State();
      var st := stats.(totalPings := stats.totalPings + 1);
      st := st.(successfulPings := st.successfulPings + 1);
      failures := 0;
      RememberLatency(latency, timestamp);
      if st.minLatency.None? || latency < st.minLatency.value {
        st := st.(minLatency := Some(latency));
      }
      if latency > st.maxLatency {
        st := st.(maxLatency := latency);
      }
      st := st.(avgLatency := Mean(history));
      stats := st;
      assert DetectorState() == m.detector;
      assert State() == m.(stats := st, failures := 0, history := history, timestamps := timestamps);
    }

    /** The latency and its time enter the bounded histories. */
    method RememberLatency(latency: real, timestamp: int)
      requires Configured()
      modifies this
      ensures Configured()
      ensures State() == old(State()).(history := PushBounded(old(history), latency, Session.HistoryCapacity),
                                       timestamps := PushBounded(old(timestamps), timestamp, Session.HistoryCapacity))
    {
      ghost var m := State();
      var pushed := PushBounded(history, latency, Session.HistoryCapacity);
      var stamped := PushBounded(timestamps, timestamp, Session.HistoryCapacity);
      history := pushed;
      timestamps := stamped;
      assert DetectorState() == m.detector;
      assert State() == m.(history := pushed, timestamps := stamped);
    }

    method RecordFailure()
      requires Configured()
      modifies this
      ensures Configured()
      ensures State() == old(State()).(stats := old(stats).(totalPings := old(stats.totalPings) + 1,
                                                            failedPings := old(stats.failedPings) + 1),
                                       failures := old(failures) + 1)
    {
      ghost var m := State();
      stats := stats.(totalPings := stats.totalPings + 1, failedPings := stats.failedPings + 1);
      failures := failures + 1;
      assert DetectorState() == m.detector;
      assert State() == m.(stats := stats, failures := failures);
    }

    /** The alert the loop hands to the callback, counted in the statistics. */
    method RaiseAlert(latency: Option<real>) returns (alert: Option<Session.Alert>)
      requires Configured()
      modifies this
      ensures Configured()
      ensures alert == Session.AlertFor(settings, old(State()), latency)
      ensures State() == Session.CountAlert(old(State()), alert)
    {
      alert := None;
      match latency {
        case Some(l) =>
          if settings.enableAlerts && l > settings.alertThreshold {
            alert := Some(Session.HighLatency(l));
          }
        case None =>
          if failures >= Session.FailureAlertAfter {
            alert := Some(Session.ConnectionLost(failures));
          }
      }
      if alert.Some? {
        stats := stats.(alertsTriggered := stats.alertsTriggered + 1);
      }
    }

    /** The packet loss in percent, from the counters. */
    method UpdatePacketLoss()
      requires Configured()
      modifies this
      ensures Configured()
      ensures State() == Session.UpdateLoss(old(State()))
    {
      ghost var m := State();
      if stats.totalPings > 0 {
        stats := stats.(packetLoss := Session.LossPercent(stats.failedPings, stats.totalPings));
        assert DetectorState() == m.detector;
        assert State() == m.(stats := stats);
      }
    }

    /** One iteration of `monitor_loop` up to the log write. */
    method Probe(latency: Option<real>, timestamp: int) returns (alert: Option<Session.Alert>)
      requires Coherent()
      modifies this
      ensures Coherent()
      ensures var counted := Session.CountProbe(old(State()), latency, timestamp);
        var detected := Session.Detect(cfg, stdev, counted, latency, timestamp);
        alert == Session.AlertFor(settings, detected, latency) &&
        State() == Session.UpdateLoss(Session.CountAlert(detected, alert))
    {
      RecordProbe(latency, timestamp);
      ghost var counted := State();
      if latency.Some? {
        DetectAnomaly(latency.value, timestamp);
      }
      ghost var detected := State();
      assert detected == Session.Detect(cfg, stdev, counted, latency, timestamp);
      alert := RaiseAlert(latency);
      ghost var alerted := State();
      assert alerted == Session.CountAlert(detected, alert);
      UpdatePacketLoss();
      assert DetectorState() == State().detector;
    }

    /**
     * One iteration of `monitor_loop`: `latency` is the probe's result,
     * `timestamp` its time, and `writeOk` whether a log write succeeds; the
     * alert is what the callback receives.
     */
    method Tick(latency: Option<real>, timestamp: int, writeOk: bool) returns (alert: Option<Session.Alert>)
      requires Valid()
      modifies this
      ensures Valid()
      ensures (alert, State()) == Session.Tick(settings, cfg, stdev, old(State()), latency, timestamp, writeOk)
    {
      Session.TickKeepsStatsInv(settings, cfg, stdev, State(), latency, timestamp, writeOk);
      alert := Probe(latency, timestamp);
      LogToFile(timestamp, latency, writeOk);
    }
  }
}
