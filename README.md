# Network monitor engine, modelled in Dafny

This project models the per-probe engine of `NetworkMonitor` in
`monitoramento.py`, a Windows desktop tool. The tool pings a host about once a
second, keeps session statistics, and raises alerts on high latency or
repeated failures. It detects anomaly episodes with a fixed threshold and a
statistical test. It writes every probe to a log in batches. Around this
engine the model also covers the small pure helpers:

- parsing the output of the system `ping`;
- building and reading back the per-network anomaly file names;
- merging the daily probe logs into one table.

Modules, one file each:

- `Base`: the `Option` type (Python's `None`).
- `Text`: the Python string operations the source uses, with their meaning
  proved. These are `in`, `split`, `join`, `replace`, `strip`, `lower`,
  `startswith` and `endswith`.
- `Numbers`: sum, mean, minimum and maximum. It also has `list[-n:]` and
  `append` on a `deque(maxlen=n)`.
- `PingOutput`: how `ping_host` turns the command's output into latency text.
- `AnomalyFiles`: the `anomalias_<network>_<date>.csv` names and how the
  anomaly tab reads them back.
- `LogConsolidation`: `get_all_log_files` and `consolidate_logs`, which list the
  daily logs and merge their rows under one header.
- `Detector`: the anomaly detector of `detect_anomaly`, as a state and a step
  function. It has the rules, a multi-sample run, and the scenarios.
- `Session`: one iteration of the monitoring loop as a function over the
  monitor's state, plus start, stop, reset and the probe log.
- `Monitor`: the class `NetworkMonitor`. Its fields mirror the source, and its
  methods update them in place. Each method is proved against the matching
  `Session` or `Detector` function.

The probe's result, the current time and whether a disk write succeeds are
inputs of the methods. `statistics.stdev` is a function value fixed when the
object is built. The model does not compute a square root.

## Model

| member | source | states |
|---|---|---|
| Text.IndexOf | monitoramento.py:166 | the result is the first position where the pattern occurs, and None exactly when it occurs nowhere |
| Text.Split | monitoramento.py:167-169 | `split` yields at least one piece, and exactly one piece, the whole text, when the separator is absent |
| Text.SplitFirstPieces | monitoramento.py:169 | the first two pieces of `split` are the text before the first separator and the text between the first and second |
| Text.JoinSplit | monitoramento.py:1053-1056 | joining the pieces of a split with the same separator gives back the text |
| Text.SplitPiecesFree | monitoramento.py:1053 | no piece of a split contains the separator |
| Text.ReplaceIsJoinOfSplit | monitoramento.py:1053 | `replace` is split on the target, joined with the replacement |
| Text.ReplaceChars | monitoramento.py:1978 | every character `replace` produces comes from the text or from the replacement |
| Text.ReplaceRemovesChar | monitoramento.py:1978 | replacing a character by text that lacks it leaves no occurrence of it |
| Text.SplitAtSeparator | monitoramento.py:1053 | splitting `a + "_" + b` on `_` gives the pieces of `a` followed by the pieces of `b` |
| Text.Replace | monitoramento.py:1053 | `s.replace(target, replacement)`; its meaning is stated by `Text.ReplaceIsJoinOfSplit` |
| Text.Join | monitoramento.py:1056 | `sep.join(parts)`; `Text.JoinSplit` states that it undoes `split` |
| Text.TrimStart | monitoramento.py:169 | the leading whitespace is removed, and only that: the result is a suffix starting with a non-space |
| Text.TrimEnd | monitoramento.py:169 | the trailing whitespace is removed, and only that: the result is a prefix ending with a non-space |
| Text.Strip | monitoramento.py:169 | `s.strip()`: `TrimStart`, then `TrimEnd`, over the characters for which Python's `str.isspace()` holds |
| Text.Lower | monitoramento.py:164 | lower-casing keeps the length and lowers each character on its own: `A`-`Z` become `a`-`z`, every other character is kept |
| Numbers.MinOf | monitoramento.py:420 | `min` of a non-empty list is an element and below every element |
| Numbers.MaxOf | monitoramento.py:419 | `max` of a non-empty list is an element and above every element |
| Numbers.Mean | monitoramento.py:206 | `statistics.mean`: the sum over the length; `Numbers.MeanBetween` bounds it |
| Numbers.MeanBetween | monitoramento.py:418 | the mean lies within any bounds that hold every element |
| Numbers.MeanBetweenMinAndMax | monitoramento.py:418-420 | `min <= mean <= max` |
| Numbers.LastN | monitoramento.py:430 | `list[-n:]` keeps the last `min(n, len)` elements, in order |
| Numbers.LastNMember | monitoramento.py:430 | the last elements are elements of the whole list |
| Numbers.PushBounded | monitoramento.py:350-352 | appending to a full `deque(maxlen=n)` drops the oldest value; the new value is last and the length is at most n |
| Numbers.PushBoundedMember | monitoramento.py:351 | a bounded append holds only old values and the new one |
| PingOutput.ValueAfter | monitoramento.py:169 | `line.split(marker)[1].split('ms')[0].strip()` |
| PingOutput.FirstMatchingLine | monitoramento.py:167-170 | the value on the first "line" holding both the marker and `ms`, None when there is none |
| PingOutput.LatencyText | monitoramento.py:164-177 | the text `ping_host` passes to `float()`, as written: `tempo=` first, `time=` only without `tempo=`, None otherwise; `PingOutput.LatencyTextBetweenMarkers` states what it returns |
| PingOutput.LatencyTextBetweenMarkers | monitoramento.py:164-175 | for an output without the two characters `\n`, in which the marker (`tempo=`, or `time=` when `tempo=` is absent) occurs only once and is followed by `ms`, the latency text is the stripped text between the marker and the first `ms` after it |
| PingOutput.SubMillisecondReplyRejectedExample | monitoramento.py:166-177 | the reply `tempo<1ms` yields no latency, so the probe counts as failed |
| PingOutput.SubMillisecondReplyShape | monitoramento.py:164-175 | the lower-cased reply `tempo<1ms` holds no `\n`, `tempo=` or `time=`, but does hold `tempo<` and `ms` |
| PingOutput.SubMillisecondReplyAcceptedExample | monitoramento.py:166-177 | the corrected parser yields a latency for `tempo<1ms` |
| PingOutput.LatencyTextWithBelowMarkers | monitoramento.py:164-177 | the corrected parser: as written, and when that yields nothing, the same search for `tempo<` and then `time<` |
| PingOutput.BelowMarkerReplyAccepted | monitoramento.py:166-177 | the corrected parser reads the value after `tempo<` or `time<` when no `=` marker is present |
| PingOutput.LowerKeepsLowerCase | monitoramento.py:164 | text without upper-case letters is unchanged by `lower` |
| PingOutput.UpperCaseMarkersFold | monitoramento.py:164-166 | `TEMPO=`, `TIME=` and `MS` lower-case to the markers the parser searches for |
| AnomalyFiles.AnomalyFileName | monitoramento.py:1977-1979 | `anomalias_<safe network name>_<date>.csv`; `AnomalyFiles.LabelOfFileName` states that it reads back |
| AnomalyFiles.IsAnomalyFileName | monitoramento.py:1049 | the listing filter: starts with `anomalias_` and ends with `.csv` |
| AnomalyFiles.Label | monitoramento.py:1052-1058 | network and date read out of a file name: every `anomalias_` and `.csv` removed, split on `_`, the last piece the date and the rest re-joined with `_`; the whole stem when there is only one piece |
| AnomalyFiles.DisplayName | monitoramento.py:1052-1058 | the text the anomaly tab shows: `network (date)`, or the stem |
| AnomalyFiles.SafeSsid | monitoramento.py:1978 | the safe network name holds no space, colon or slash |
| AnomalyFiles.StemOfFileName | monitoramento.py:1052-1056 | removing the prefix and the extension from a built file name leaves `safe network name + "_" + date` |
| AnomalyFiles.LabelOfFileName | monitoramento.py:1044-1062 | for a date of digits and dashes, the name built for a network passes the listing filter and reads back as that network's safe name and the date, shown as `network (date)`, provided the safe name holds no `.csv` and the safe name followed by `_` holds no `anomalias_` |
| LogConsolidation.Header | monitoramento.py:547-553 | the header of the merged table: the first row of the first non-empty file read |
| LogConsolidation.DataRows | monitoramento.py:547-556 | the rows after each file's header, files in reading order |
| LogConsolidation.Consolidated | monitoramento.py:545-556 | the merged table: the header, then the data rows; `LogConsolidation.MergeRows` is proved to build it |
| LogConsolidation.NoHeaderNoData | monitoramento.py:548-556 | when every file is empty there is no data row either |
| LogConsolidation.ConsolidatedStep | monitoramento.py:548-556 | one iteration of the merge loop: an empty file adds nothing, the first non-empty file adds its header and its rows, and later files add their rows after the header |
| LogConsolidation.HeaderOfAppend | monitoramento.py:548-553 | once an older file supplies the header, newer files never replace it |
| LogConsolidation.DataRowsOfAppend | monitoramento.py:554-556 | the data rows of older files come before those of newer files, each file's rows in order |
| LogConsolidation.ConsolidatedExtends | monitoramento.py:548-556 | adding newer files extends the merge of the older ones by the newer data rows only |
| LogConsolidation.DataRowsCount | monitoramento.py:563 | the merged data rows are as many as the files' rows after their headers |
| LogConsolidation.MergeRows | monitoramento.py:545-556 | the loop builds exactly one header (from the oldest non-empty file) followed by all data rows, oldest file first |
| LogConsolidation.ListedAsWritten | monitoramento.py:529-536 | `get_all_log_files` as written: exactly the files whose names start with `network_log_` and end with `.csv`, the consolidated output among them |
| LogConsolidation.Listed | monitoramento.py:529-536 | the corrected listing: exactly those files except the consolidated output |
| LogConsolidation.DailyLogsListed | monitoramento.py:529-536 | a directory holding only daily logs is listed whole and in order, in both readings |
| LogConsolidation.DatedNameBelowOutput | monitoramento.py:536 | `network_log_<date>.csv` sorts below `network_log_CONSOLIDATED.csv`, because a digit sorts below `C` |
| LogConsolidation.OutputSortsFirst | monitoramento.py:536 | the consolidated output comes first in `sorted(..., reverse=True)`, ahead of every daily log |
| LogConsolidation.ListingWithOutput | monitoramento.py:529-538 | as written, the listing keeps the consolidated output; the corrected listing drops it |
| LogConsolidation.MergeAfterOwnOutput | monitoramento.py:547-556 | merging a table after the files it was made from appends their data rows a second time |
| LogConsolidation.ReconsolidationRepeatsRows | monitoramento.py:529-565 | consolidating again, as written, yields the first table followed by every data row once more; the corrected listing yields the first table again |
| LogConsolidation.SampleDayNameIsDated | monitoramento.py:304 | `network_log_2024-01-01.csv`, the name `log_to_file` gives that day's log, is a dated daily-log name |
| LogConsolidation.SampleDayMerged | monitoramento.py:529-556 | a dated daily log with a header and one probe is listed, in both readings, and merges to `[header, probe]` |
| LogConsolidation.SecondConsolidationDoubles | monitoramento.py:529-565 | consolidating such a log a second time, next to the first table, yields `[header, probe, probe]` as written and `[header, probe]` with the corrected listing |
| LogConsolidation.ConsolidateLogs | monitoramento.py:538-565 | over the corrected listing: fails exactly when no log file is listed (I/O errors left out); otherwise it reports the number of data rows, or -1 when every file is empty |
| Detector.Observe | monitoramento.py:350-352 | outside an anomaly, the bounded append to the baseline and one more pending insertion; `Detector.BaselineRule` states it |
| Detector.Refresh | monitoramento.py:364-369 | the cache recomputed from the whole baseline when due; `Detector.CacheRule` states when |
| Detector.Classify | monitoramento.py:354-379 | the verdict, fixed threshold first, then the statistical test; `Detector.FixedThresholdFirst` and `Detector.StatisticalCriterion` state it |
| Detector.MakeEpisode | monitoramento.py:411-453 | the record of a closing episode; `Detector.EpisodeSummarises` and `Detector.IncreasePercentRule` state what it holds |
| Detector.Close | monitoramento.py:408-465 | leaving the anomaly: the episode kept if long enough, both buffers cleared; `Detector.CloseRule` states it |
| Detector.Transition | monitoramento.py:382-465 | the state machine; `Detector.OpenRule`, `Detector.QuietRule`, `Detector.ContinueRule` and `Detector.CloseRule` state its cases |
| Detector.Step | monitoramento.py:337-465 | one call of `detect_anomaly`: observe, classify, transition; `Detector.StepKeepsInv` states its invariant |
| Detector.Run | monitoramento.py:187-209 | the calls the loop makes for consecutive successful probes |
| Detector.DefaultConfig | monitoramento.py:79-83 | the default settings satisfy the detector's requirements |
| Detector.InitialInv | monitoramento.py:84-96 | a fresh detector satisfies the invariant |
| Detector.ClassifyKeepsMachine | monitoramento.py:354-379 | classifying a sample changes only the cache |
| Detector.TransitionKeepsInv | monitoramento.py:382-465 | opening, extending, buffering and closing keep the detector's invariant |
| Detector.StepKeepsInv | monitoramento.py:337-465 | every sample keeps the invariant: baseline at most 100 values; inside an anomaly a non-empty window and fewer buffered normal samples than needed to close; outside, both empty |
| Detector.BaselineRule | monitoramento.py:350-352 | the baseline is appended only outside an anomaly, the new value last, and never exceeds 100 values |
| Detector.CacheRule | monitoramento.py:364-369 | the cache is recomputed exactly when the statistical test is reached with 10 or more pending insertions or nothing cached; it then holds the mean and deviation of the baseline and the count is 0, and otherwise it is untouched |
| Detector.FixedThresholdFirst | monitoramento.py:359-361 | a latency at or above the fixed threshold is anomalous for that reason, and the cache is left alone |
| Detector.StatisticalCriterion | monitoramento.py:364-379 | below the threshold, with fewer than `anomaly_min_samples` baseline values the sample is normal and nothing changes; with enough, it is anomalous exactly when above mean + stdev × multiplier, for that reason |
| Detector.OpenRule | monitoramento.py:383-390 | an anomalous sample outside an anomaly opens an episode with window `[latency]`, an empty buffer, this ping's number and time, and the verdict's reason |
| Detector.QuietRule | monitoramento.py:350-404 | a normal sample outside an anomaly leaves the machine and the recorded episodes alone |
| Detector.ContinueRule | monitoramento.py:392-406 | inside an anomaly an anomalous sample makes the window `window + [latency] + buffer` and empties the buffer; an early normal sample is buffered; either way the window and buffer together grow by one |
| Detector.EpisodeSummarises | monitoramento.py:411-450 | a recorded episode has `pings_affected == len(window)`, minimum and maximum that are window values bounding it, `min <= avg <= max`, and the opening number, time and reason |
| Detector.CloseRule | monitoramento.py:404-465 | the closing normal sample ends the anomaly and clears both buffers; an episode is recorded if and only if the window has at least `anomaly_min_pings` samples, and then it summarises that window |
| Detector.IncreaseSign | monitoramento.py:436-437 | with a positive baseline mean the increase is positive exactly when the episode mean is above it, and negative exactly when it is below |
| Detector.IncreasePercentRule | monitoramento.py:422-437 | baseline figures are all 0 with fewer than 10 baseline values; otherwise the minimum and maximum are values among the last 50 that bound all of them, and the average is their mean; the increase is positive or negative exactly when the mean is above or below a positive baseline mean |
| Detector.RunAppend | monitoramento.py:337-465 | running two sample streams one after the other is running their concatenation |
| Detector.SpikeRun | monitoramento.py:359-398 | consecutive samples at or above the threshold open one episode whose window is exactly those samples |
| Detector.Limit | monitoramento.py:364-379 | the statistical limit the next sample is judged against: mean + stdev × multiplier of the cache, refreshed if due |
| Detector.FrozenInsideAnomaly | monitoramento.py:350-406 | inside an anomaly a sample is normal exactly when it is below the fixed threshold and, with enough baseline, not above the limit; the step leaves the baseline and the limit unchanged |
| Detector.CalmRun | monitoramento.py:402-406 | inside an anomaly, whatever the baseline, fewer than `anomaly_min_consecutive_normal` samples that neither criterion flags are only buffered: the episode stays open, nothing is recorded, and the baseline and the limit are unchanged |
| Detector.OpenRun | monitoramento.py:392-410 | inside an anomaly, any samples fewer than the confirmation still needs keep the episode open and unrecorded; the window only grows, and every sample lands in the window or the buffer |
| Detector.EpisodeScenario | monitoramento.py:337-465 | from any state outside an anomaly, whatever the baseline: N samples at or above the threshold, then `anomaly_min_consecutive_normal` samples that neither criterion flags against the limit in force after the spike; one episode opens and closes, and it is recorded, summarising exactly the spike with `pings_affected == N`, if and only if N ≥ `anomaly_min_pings` |
| Detector.EpisodeStaysOpen | monitoramento.py:392-410 | after a spike opens an episode, fewer than `anomaly_min_consecutive_normal` further samples of any latency leave it open and unrecorded, whatever the baseline; the spike stays at the head of the window |
| Detector.StepAsWrittenDiffers | monitoramento.py:455-465 | the code as written raises exactly on a recording close; there it records the same episode but leaves the window and buffer filled; elsewhere it agrees with the corrected step |
| Detector.StepAsWritten | monitoramento.py:337-465 | `detect_anomaly` as written: on a recording close the episode is appended and the call raises before the buffers are cleared |
| Detector.RecordingCloseReachable | monitoramento.py:408-458 | with the defaults, five probes at 150 ms and then ten at 20 ms reach the raising close on the fifteenth probe |
| Session.CountProbe | monitoramento.py:192-230 | counting one probe: total, success or failure, history, extremes and average; `Session.CountProbeKeepsInv` states what it keeps |
| Session.Detect | monitoramento.py:209 | a successful probe's latency given to the detector with the probe's number |
| Session.AlertFor | monitoramento.py:211-237 | the alert a probe raises, if any; `Session.TickAlerts` states when |
| Session.UpdateLoss | monitoramento.py:248-249 | packet loss as the failure percentage; `Session.LossPercentRange` bounds it |
| Session.Flush | monitoramento.py:297-324 | writing the buffered entries; `Session.FlushRule` states it |
| Session.LogProbe | monitoramento.py:268-295 | buffering one entry and flushing at 10; `Session.TickLogsOnce` states it |
| Session.Tick | monitoramento.py:187-266 | one iteration of the loop, corrected; `Session.TickCounts`, `Session.TickAlerts`, `Session.TickKeepsStatsInv` and `Session.TickLogsOnce` state it |
| Session.TickAsWritten | monitoramento.py:187-266 | the iteration as written: when `detect_anomaly` raises, the rest of the iteration is skipped |
| Session.Start | monitoramento.py:326-330 | starting: only when not yet monitoring, with the start time recorded and no failures in a row |
| Session.Stop | monitoramento.py:332-335 | stopping and flushing; `Session.StopFlushes` states it |
| Session.ResetStats | monitoramento.py:511-527 | the reset; `Session.ResetStatsRule` states it |
| Session.InitialStateInv | monitoramento.py:59-69 | the initial statistics are consistent |
| Session.TickCounts | monitoramento.py:192-230 | every tick adds one to `total_pings` and one to exactly one of `successful_pings` / `failed_pings`; success resets the consecutive failures, failure increments them |
| Session.TickAlerts | monitoramento.py:211-237 | a failure alerts exactly when it is at least the third in a row, whether or not alerts are enabled; a success alerts exactly when alerts are enabled and the latency exceeds the alert threshold; each alert is counted once |
| Session.LossPercentRange | monitoramento.py:248-249 | packet loss is between 0 and 100, 0 exactly without failures, and 100 exactly when all probes failed |
| Session.CountProbeKeepsInv | monitoramento.py:192-206 | counting keeps the counters summing to the total, the history bounded and within the session's minimum and maximum, and the average equal to the history's mean |
| Session.TickKeepsStatsInv | monitoramento.py:187-252 | every tick keeps the statistics consistent, including the packet loss equal to the failure rate |
| Session.AverageBetweenExtremes | monitoramento.py:201-206 | the average shown lies between the minimum and the maximum shown |
| Session.TickLossRange | monitoramento.py:248-249 | after each tick the packet loss is a percentage, 0 exactly without failures |
| Session.TickDetects | monitoramento.py:192-209 | only successful probes reach the detector; an episode opened by this probe starts at the probe's own 1-based number |
| Session.TickLogsOnce | monitoramento.py:268-295 | each tick adds exactly one entry (time, server, result, updated packet loss) after all entries already logged or buffered; nothing is lost when a write fails; after a successful write fewer than 10 remain buffered |
| Session.FlushRule | monitoramento.py:297-324 | flushing an empty buffer does nothing; a successful write appends the buffer to the log in order and empties it; a failed one changes nothing |
| Session.StopFlushes | monitoramento.py:332-335 | stopping ends the loop and writes the pending entries, losing none |
| Session.ResetStatsRule | monitoramento.py:511-527 | reset restores the initial counters and empties the histories; the detected episodes, the detector and the log are kept; resetting twice equals resetting once |
| Session.TickAsWrittenLosesEntry | monitoramento.py:209-266 | on a recording close the loop as written logs no entry, leaves the packet loss stale and drops the alert, while the corrected tick logs one; elsewhere the two agree |
| Monitor.NetworkMonitor.constructor | monitoramento.py:34-102 | the new monitor is in the initial state, holding the loaded episodes |
| Monitor.NetworkMonitor.StartMonitoring | monitoramento.py:326-330 | starts only when not yet monitoring, records the start time and zeroes the consecutive failures |
| Monitor.NetworkMonitor.FlushLogBuffer | monitoramento.py:297-324 | the loop writes the buffered entries in order, then empties the buffer, as `Session.Flush` |
| Monitor.NetworkMonitor.LogToFile | monitoramento.py:268-295 | buffers one entry and flushes at 10, as `Session.LogProbe` |
| Monitor.NetworkMonitor.StopMonitoring | monitoramento.py:332-335 | as `Session.Stop` |
| Monitor.NetworkMonitor.ResetStats | monitoramento.py:511-527 | as `Session.ResetStats` |
| Monitor.NetworkMonitor.DetectAnomaly | monitoramento.py:337-465 | updates the detector's fields exactly as `Detector.Step`, and keeps its invariant |
| Monitor.NetworkMonitor.FeedBaseline | monitoramento.py:350-352 | as `Detector.Observe` |
| Monitor.NetworkMonitor.Judge | monitoramento.py:354-379 | returns the verdict and cache of `Detector.Classify` |
| Monitor.NetworkMonitor.RefreshCache | monitoramento.py:364-369 | as `Detector.Refresh` |
| Monitor.NetworkMonitor.Advance | monitoramento.py:382-465 | as `Detector.Transition` |
| Monitor.NetworkMonitor.Open | monitoramento.py:383-391 | starts an episode in the fields, as the opening case of `Detector.Transition` |
| Monitor.NetworkMonitor.Extend | monitoramento.py:392-401 | moves the buffered samples and the new one into the window, as the continuing case of `Detector.Transition` |
| Monitor.NetworkMonitor.Confirm | monitoramento.py:402-465 | buffers a normal sample and closes the episode once enough have been buffered, as `Detector.Transition` on a normal verdict |
| Monitor.NetworkMonitor.CloseEpisode | monitoramento.py:408-465 | as `Detector.Close` |
| Monitor.NetworkMonitor.RecordProbe | monitoramento.py:192-230 | as `Session.CountProbe` |
| Monitor.NetworkMonitor.RecordSuccess | monitoramento.py:194-206 | counts a success and updates minimum, maximum, history and average, as `Session.CountProbe` |
| Monitor.NetworkMonitor.RememberLatency | monitoramento.py:198-199 | appends latency and time to the bounded histories of 200 values |
| Monitor.NetworkMonitor.RecordFailure | monitoramento.py:229-230 | adds one to the total, the failures and the consecutive failures, nothing else |
| Monitor.NetworkMonitor.RaiseAlert | monitoramento.py:211-237 | the alert of `Session.AlertFor`, counted |
| Monitor.NetworkMonitor.UpdatePacketLoss | monitoramento.py:248-249 | as `Session.UpdateLoss` |
| Monitor.NetworkMonitor.Probe | monitoramento.py:192-249 | counting, detection and alerting of one probe, in the order of `Session.Tick` |
| Monitor.NetworkMonitor.Tick | monitoramento.py:187-262 | one loop iteration exactly as `Session.Tick`, keeping every invariant |

## Left out

- Running `ping` is left out: the subprocess, its timeout and its exceptions. A probe's result is an input of `Tick`. `ipconfig`, `netsh` and the Wi-Fi routines are left out too. None of them has logic of its own to state.
- `float()` is left out. `PingOutput` returns the text that would be converted; the text to number step, and a `ValueError` on bad text, are not modelled.
- The monitoring thread, `time.sleep`, the interval, `winsound` and the callback are left out. One iteration of the loop is `Tick`, and the alert it returns is what the callback receives.
- `statistics.stdev` is a function value given to the constructor. The model only uses it as the deviation of the whole baseline.
- The standard deviation needs at least two values. `Detector.Config.Valid` therefore requires `anomaly_min_samples >= 2`. It also requires `anomaly_min_pings >= 1` and `anomaly_min_consecutive_normal >= 1`, the ranges the settings screen offers.
- Time is an integer count of seconds. `duration_seconds` is `end - start`; `datetime` arithmetic and sub-second precision are left out.
- The probe log is modelled as one sequence of entries. The model leaves out the daily file name, the header row of a new file, the CSV layout and the `:.2f` formatting. A write either succeeds for the whole buffer or changes nothing; a write that fails halfway is not modelled.
- `save_anomaly` and `load_anomalies` are file I/O. Episodes loaded from disk are an input of the constructor, and writing an episode to disk is not modelled.
- `load_config` and `save_config` are left out. Settings edited in the window while the loop runs are also left out: the settings are fixed per object.
- `ping_count_offset` is set only by the chart code. The model keeps the field, and `reset_stats` sets it to 0.
- `packet_loss_history` and `download_speed_history` are left out because the engine never uses them.
- Reading the lines of a CSV file and the `os.listdir` call are left out. `LogConsolidation` takes the directory as a sequence of names and rows already in the order `sorted(..., reverse=True)` gives; the sort itself is not modelled, and `LogConsolidation.NewestFirst` states that order.
- `sorted(..., reverse=True)` is left out of the anomaly file list, and so is its ordering.
- Text.Lower: only the ASCII letters A to Z are lowered, unlike Python's Unicode `lower`, because ping output and the markers are ASCII.
- Python floats are modelled as exact reals: `statistics.mean`, the statistical limit and the percentages (`/ total * 100`, the increase) carry no rounding.
- `anomaly_start_time` is `None` until the first episode opens; the model holds 0 there, which no close ever reads.
- `consolidate_logs` also returns `False` on any exception while reading or writing; I/O errors are left out, so the model fails only when no log file is listed.
- The class's `Tick` does not require `monitoring` to be true; the check of the `while` condition is left out.
- Retention filter: the tests set `anomaly_min_increase_percent` (tests/test_monitor_validations.py:43, tests/test_dual_independence.py:17), but `detect_anomaly` never reads it and keeps an episode on `pings_affected >= anomaly_min_pings` alone (monitoramento.py:414); the model follows `detect_anomaly`.
- `DualWiFiMonitorManager`, the `monitor_id`/`wifi_ssid` constructor and `update_anomaly_filename_with_wifi` are not part of this model: monitoramento.py does not define them, although the tests import or call them (tests/test_monitor_validations.py:12, tests/dual_stress_test.py:11).
- The GUI (`MonitorGUI`), the charts and `instalar_monitor.py` are left out; only the helpers named above are modelled.

## Findings

| source | as written | input that shows it | evidently intended | confidence | as-written member | corrected member |
|---|---|---|---|---|---|---|
| monitoramento.py:458 | the message printed after an episode is recorded names `baseline_during`, which is never defined, so `NameError` leaves `detect_anomaly` after the append at :455 and before the clears at :464-465; the loop's `except` at :264-266 then skips the alert, the packet-loss update and `log_to_file` for that probe | default settings, probes 1-5 at 150 ms and probes 6-15 at 20 ms: the fifteenth probe closes and records the episode, then raises (`Detector.RecordingCloseReachable`); that probe gets no log entry (`Session.TickAsWrittenLosesEntry`) | print a summary using defined values, so the close clears the buffers and the iteration completes | high (not executed) | Session.TickAsWritten | Session.Tick |
| monitoramento.py:166-177 | only `tempo=` and `time=` are recognised; Windows `ping` prints `tempo<1ms` / `time<1ms` for a reply under one millisecond, which then falls through to `return None` | the reply line text `tempo<1ms` yields no latency (`PingOutput.SubMillisecondReplyRejectedExample`), so a fast, healthy host such as the local gateway is counted as a failed probe | also read the value after `tempo<` / `time<` | medium (not executed) | PingOutput.LatencyText | PingOutput.LatencyTextWithBelowMarkers |
| monitoramento.py:529-538 | `get_all_log_files` keeps every `network_log_*.csv` of `logs/`, and `consolidate_logs` writes `logs/network_log_CONSOLIDATED.csv`, which passes that filter; since `C` sorts above the digits of a date, the output is listed first and read last | one daily log (such as `network_log_2024-01-01.csv`) holding a header and one probe, consolidated twice: the second table holds the probe twice (`LogConsolidation.SecondConsolidationDoubles`); in general every data row is repeated (`LogConsolidation.ReconsolidationRepeatsRows`) | leave the consolidated output out of the listing | high (not executed) | LogConsolidation.ListedAsWritten | LogConsolidation.Listed |
