# Rhythmia heart-rate and HRV core, in Dafny

This project models the arithmetic core of Rhythmia, a browser app for heart-rate
and heart-rate-variability (HRV) training. The app has two input paths.

- **PPG path.** A recorded photoplethysmography signal is played back. Each animation
  frame moves a cursor and cuts an 8-second window. The window is normalised by its
  median and MAD. Peaks are detected and de-duplicated within a refractory distance.
  Inter-beat intervals (IBIs) are validated against a baseline and built into a
  rolling 30-entry NN history, from which SDNN, RMSSD and pNN50 are derived.
- **Heart-rate-monitor path.** A Bluetooth Heart Rate Measurement packet is decoded
  and delivered to listeners. Each sample feeds a bounded RR buffer that computes
  HRV metrics on demand.

Beside these sit two rule tables: vital-sign grading, and the choice of a metronome
pattern from the RMSSD.

Modules, one per source file:

| module | file | source | form |
|---|---|---|---|
| `Options` | `options.dfy` | the optional values used throughout | datatype |
| `Stats` | `stats.dfy` | sorting, upper median, sums, squared deviations, NN50 counts | functions and lemmas |
| `Bounded` | `bounded.dfy` | append, then drop the oldest beyond a capacity | function and lemma |
| `DeviceTypes` | `device_types.dfy` | the sample record | datatype |
| `PpgMetrics` | `ppg_metrics.dfy` | `src/lib/ppgMetrics.ts` | functions, with loop methods for the loops |
| `PpgPlayback` | `ppg_playback.dfy` | `src/hooks/usePpgPlayback.ts` | class `Playback` with a `Tick(time)` method, specified by a state-transition function |
| `HrvCalculator` | `hrv_calculator.dfy` | `src/features/hrv/HRVCalculator.ts` | class `HRVCalculator` |
| `LiveMetrics` | `live_metrics.dfy` | `src/features/hrv/useLiveMetrics.ts` | class `LiveMetricsHook` that owns a calculator |
| `BleHeartRate` | `ble_heart_rate.dfy` | `src/features/device/BleHeartRateDevice.ts` | decoder over bytes, class `BleHeartRateDevice` |
| `VitalStatus` | `vital_status.dfy` | `src/lib/vitalStatus.ts` | functions |
| `BeatGenerator` | `beat_generator.dfy` | `src/features/beat/beatGenerator.ts` | function |

Modelling conventions:

- Numbers are `real`. The sampling rate is a positive `nat`.
- `Math.round(x)` is `floor(x + 0.5)`.
- Array `sort` is `Stats.Sort`, a sorted permutation. The median everywhere is the
  upper median `sorted[floor(n/2)]`.
- Square roots are not computed. SDNN and RMSSD are carried as their squares: the
  variance and the mean squared successive difference.
- Every method that changes state is specified by a pure function of the old state.
  The invariant it keeps is proved about that function.
- In `PpgPlayback`, `TickSpec` is one animation frame: clock, advance, window,
  display refresh and analytics pass. `Playback.Tick` performs the frame on fields
  and is proved equal to it.

## Model

| member | source | states |
|---|---|---|
| PpgMetrics.DefaultConfigValid | src/lib/ppgMetrics.ts:12-27 | The default configuration has a positive sampling rate and 0 < ibiMinMs <= ibiMaxMs. |
| Stats.Sort | src/lib/ppgMetrics.ts:105 | The sorted copy has the input's length, is ascending, and is a permutation of the input. |
| Stats.UpperMedianSpec | src/lib/ppgMetrics.ts:105-106 | `sorted[floor(n/2)]` is an element of the input with at most n/2 elements below it and at most (n-1)/2 above it. |
| PpgMetrics.MadAbout | src/lib/ppgMetrics.ts:109-114 | The scaled MAD is never negative. |
| PpgMetrics.ScaleFor | src/lib/ppgMetrics.ts:115 | The divisor (the MAD, or 1 when the MAD is 0) is never zero. |
| PpgMetrics.RobustNormalize | src/lib/ppgMetrics.ts:101-121 | The data have the input's length and the MAD is non-negative. An empty input gives empty data with MAD 0 and median 0. |
| PpgMetrics.RescaleInverse | src/lib/ppgMetrics.ts:117-118 | Multiplying a normalised value by the scale gives back the sample's deviation from the median. |
| PpgMetrics.RobustNormalizeSpec | src/lib/ppgMetrics.ts:101-121 | The median is the input's upper median. The MAD is 1.4826 times the upper median of the absolute deviations. Every normalised value times the scale is the sample's deviation from the median. |
| PpgMetrics.RobustNormalizeConstant | src/lib/ppgMetrics.ts:109-118 | For a constant window: the median is that value, the MAD is 0, the scale falls back to 1, and every normalised value is 0. |
| PpgMetrics.CandidatesBelowSpec | src/lib/ppgMetrics.ts:152-158 | The scan yields exactly the interior indices that are above the threshold, strictly above the left neighbour and not below the right one, in strictly increasing order. |
| PpgMetrics.DedupPrefixSpec | src/lib/ppgMetrics.ts:160-179 | After k candidates, the committed peaks plus the held one are strictly increasing, refractory-spaced, drawn from the first k candidates, and at most k in number. |
| PpgMetrics.DedupReplaceHeld | src/lib/ppgMetrics.ts:169-173 | Replacing the held peak by a later, higher candidate inside the refractory distance keeps the list increasing and spaced. |
| PpgMetrics.DedupSpec | src/lib/ppgMetrics.ts:160-183 | The valid peaks are a strictly increasing, refractory-spaced selection from the candidates, nonempty iff there are candidates, and no more numerous than them. |
| PpgMetrics.DedupKeepsHigher | src/lib/ppgMetrics.ts:165-178 | A candidate within minDist of the held one leaves the committed list alone, and the held one becomes whichever of the two is higher, the earlier on a tie. A candidate at least minDist away commits the held one and is held itself. |
| PpgMetrics.PeaksOfSpec | src/lib/ppgMetrics.ts:146-183 | On a normalised window: the candidates are exactly the local maxima at indices 1..n-2, and the valid peaks satisfy the de-duplication properties above. |
| PpgMetrics.PeaksSpec | src/lib/ppgMetrics.ts:123-184 | Fewer than 2 samples give two empty lists. Otherwise the candidates are the local maxima of the normalised window above k/1.4826, and the valid peaks are spaced by at least floor(peakMinDistanceSec * fs). |
| PpgMetrics.ScanCandidates | src/lib/ppgMetrics.ts:149-158 | The candidate loop returns exactly the candidate list. |
| PpgMetrics.DedupPass | src/lib/ppgMetrics.ts:160-183 | The greedy loop with its held peak returns exactly the de-duplicated list. |
| PpgMetrics.DetectPeaks | src/lib/ppgMetrics.ts:123-184 | The whole detector returns the specified candidate and valid lists. |
| PpgMetrics.IbisOf | src/lib/ppgMetrics.ts:204-210 | n peaks give n-1 intervals, and no peaks give none. Entry i is (p[i+1] - p[i]) / fs * 1000 ms, the gap between peaks i and i+1. |
| PpgMetrics.InRange | src/lib/ppgMetrics.ts:214 | The kept intervals all lie within [ibiMinMs, ibiMaxMs], and there are no more of them than inputs. |
| PpgMetrics.InRangeMembers | src/lib/ppgMetrics.ts:214 | A value is kept iff it is an input interval within the bounds. Each in-bounds value is kept as many times as it occurs, each out-of-bounds value never, so the medians downstream see the repeats. |
| PpgMetrics.InRangeAppend | src/lib/ppgMetrics.ts:214 | Filtering a concatenation is the concatenation of the filtered parts, so kept intervals keep their input order. |
| PpgMetrics.MedianBpmSpec | src/lib/ppgMetrics.ts:220-223 | The rate is 60000 over the upper median of the valid intervals, and lies within [60000/ibiMaxMs, 60000/ibiMinMs]. |
| PpgMetrics.MetricsOfSpec | src/lib/ppgMetrics.ts:195-231 | SDNN is always null. bpm is null iff there are fewer than 2 peaks or no in-range interval, and exactly then nnCount is 0. The text is 'No Signal' iff there are fewer than 2 peaks, and 'Live' iff there is a rate. Otherwise nnCount is the number of in-range intervals. |
| PpgMetrics.MetricsOfBpm | src/lib/ppgMetrics.ts:212-230 | When there is a rate, it is 60000 over the upper median of a nonempty in-range set, within [60000/ibiMaxMs, 60000/ibiMinMs]. |
| PpgMetrics.DefaultBpmRange | src/lib/ppgMetrics.ts:220-223 | Under the default configuration any reported rate lies in [30, 200]. |
| PpgMetrics.ComputeMetrics | src/lib/ppgMetrics.ts:195-231 | The interval-collecting loop and the filtering give the specified metric result. |
| PpgMetrics.IsValidIbiSpec | src/lib/ppgMetrics.ts:236-253 | An IBI is valid iff it is within bounds and, for a positive baseline m, abs(ibi - m) <= 0.3 m. Outside the bounds it is always invalid. A null or non-positive baseline reduces it to the bounds check. |
| PpgMetrics.IsValidIbiExamples | src/lib/ppgMetrics.ts:241-252 | 1040 against 800 passes and 1100 against 800 fails. 250 and 2100 fail with any baseline. 1100 with no baseline passes. |
| PpgMetrics.HistoryStatsSpec | src/lib/ppgMetrics.ts:256-288 | SDNN is null below 30 entries, and RMSSD and pNN50 below 20. When defined, the variance and the mean squared difference are non-negative and are 0 iff the history is constant. pNN50 lies in [0, 100]. |
| PpgMetrics.ConstantHistoryStats | src/lib/ppgMetrics.ts:256-288 | A constant history of 30 or more gives variance 0, RMSSD 0 and pNN50 0. |
| PpgMetrics.CalcRmssd | src/lib/ppgMetrics.ts:266-276 | The accumulating loop returns the gated mean squared successive difference. |
| PpgMetrics.CalcPnn50 | src/lib/ppgMetrics.ts:279-288 | The counting loop returns the gated percentage of differences strictly above 50 ms. |
| PpgPlayback.InitialStateInv | src/hooks/usePpgPlayback.ts:39-70 | The initial state satisfies the playback invariant. |
| PpgPlayback.LoadSpecResets | src/hooks/usePpgPlayback.ts:73-93 | A nonempty signal is installed with the cursor at 0, empty history, lastAbsPeak -1, rejected count 0, null bpm and SDNN, and the 'Initializing...' caption. The smoothed BPM is kept. An empty signal changes nothing. The invariant is kept. |
| PpgPlayback.SamplesToAdvance | src/hooks/usePpgPlayback.ts:110 | A non-negative elapsed time never moves the cursor backwards. |
| PpgPlayback.Advance | src/hooks/usePpgPlayback.ts:109-121 | After the advance and wrap, the cursor lies inside the signal and the signal is unchanged. |
| PpgPlayback.AdvanceSpec | src/hooks/usePpgPlayback.ts:109-121 | Paused, nothing changes. Playing, the cursor moves by dt/1000*fs. If that reaches the end, the cursor goes to 0, the history empties and lastAbsPeak becomes -1, while the rejected count and the smoothed BPM are kept. |
| PpgPlayback.WindowSpec | src/hooks/usePpgPlayback.ts:124-137 | The window always has windowSeconds*fs samples. Entry j is the sample at absolute index start + j, or 0 where that index is negative. |
| PpgPlayback.DisplayStep | src/hooks/usePpgPlayback.ts:151 | The display stride is at least 1. |
| PpgPlayback.KeepMultiplesSpec | src/hooks/usePpgPlayback.ts:152 | The filter keeps (n-1)/step + 1 samples, and entry i is sample i*step. |
| PpgPlayback.KeepMultiplesComplete | src/hooks/usePpgPlayback.ts:152 | Every index that is a multiple of the stride is kept, at position index/step. |
| PpgPlayback.DownsampleSpec | src/hooks/usePpgPlayback.ts:147-153 | The display holds at most 1500 points. A short window is shown as is. A long one shows exactly its samples at multiples of ceil(n/1500), in order. |
| PpgPlayback.SmoothSpec | src/hooks/usePpgPlayback.ts:194-213 | A truthy rate of at least 40 is taken as is at first. Later the smoothed value becomes exactly 0.85 * old + 0.15 * reading, which lies between the two, and is shown rounded. Any other reading keeps the smoothed value, and leaves bpm null if no value was ever set. |
| PpgPlayback.SmoothFloor | src/hooks/usePpgPlayback.ts:194-213 | Smoothing keeps the smoothed and shown rates at 40 or above. |
| PpgPlayback.NewerThan | src/hooks/usePpgPlayback.ts:222 | Every kept peak exceeds lastAbsPeak. |
| PpgPlayback.NewerThanSpec | src/hooks/usePpgPlayback.ts:222 | A peak is kept iff it exceeds lastAbsPeak, and increasing order is preserved. |
| PpgPlayback.AbsolutePeaksIncreasing | src/hooks/usePpgPlayback.ts:219 | Shifting to absolute indices keeps the peaks strictly increasing. |
| PpgPlayback.AbsolutePeaksLocate | src/hooks/usePpgPlayback.ts:124-219 | Each absolute peak is its window position plus floor(index) - windowSeconds*fs and lies before floor(index). A non-negative one indexes the recording sample the window held at that position; a negative one stands on zero padding. |
| PpgPlayback.TrimSpec | src/hooks/usePpgPlayback.ts:262-265 | The trimmed history holds at most 30 entries: the most recent ones, in insertion order. |
| PpgPlayback.FirstBatchSpec | src/hooks/usePpgPlayback.ts:229-239 | Salvaging the first batch only appends, at most one interval per gap between new peaks, each within [ibiMinMs, ibiMaxMs], with the old history as a prefix. |
| PpgPlayback.FirstBatchIbis | src/hooks/usePpgPlayback.ts:229-239 | The first batch appends exactly the in-range intervals newPeaks[i] - newPeaks[i-1], converted to ms, in peak order. |
| PpgPlayback.WalkSpec | src/hooks/usePpgPlayback.ts:240-260 | Walking k new peaks keeps the old history as a prefix. Every appended interval passes the baseline check. accepted + rejected = k. The previous peak becomes the last one walked, and the last accepted interval is reported. |
| PpgPlayback.WalkIbis | src/hooks/usePpgPlayback.ts:240-260 | A later batch appends exactly those intervals from lastAbsPeak through the new peaks, each from the previous walked peak to the next, that pass the validator against the batch baseline, in peak order. |
| PpgPlayback.WalkRejections | src/hooks/usePpgPlayback.ts:246-257 | The rejected count grows by exactly the number of those intervals that the validator refuses. |
| PpgPlayback.TrimInBounds | src/hooks/usePpgPlayback.ts:262-265 | Trimming keeps the history in range and within 30. |
| PpgPlayback.FirstBatchMerge | src/hooks/usePpgPlayback.ts:225-266 | A first batch sets lastAbsPeak to the last new peak. The rejected count is kept, lastIBI is 0, and the history stays in range within 30. |
| PpgPlayback.WalkMerge | src/hooks/usePpgPlayback.ts:240-266 | A later batch sets lastAbsPeak to the last new peak, and the history stays in range within 30. |
| PpgPlayback.MergeSpec | src/hooks/usePpgPlayback.ts:221-266 | With no new peaks nothing changes. Otherwise lastAbsPeak strictly increases to the last new peak, which is at least 0. The history stays in range within 30. |
| PpgPlayback.MergeAccounting | src/hooks/usePpgPlayback.ts:240-265 | In a later batch the baseline is the upper median of the history before the batch. accepted + rejected = number of new peaks, and the result is the trimmed walk. |
| PpgPlayback.SalvageFirstBatch | src/hooks/usePpgPlayback.ts:232-239 | The salvage loop returns the specified first-batch history. |
| PpgPlayback.WalkNewPeaks | src/hooks/usePpgPlayback.ts:246-259 | The walk loop with its mutable previous peak returns the specified walk. |
| PpgPlayback.AdvanceStep | src/hooks/usePpgPlayback.ts:97-121 | After the clock step and the advance, the cursor lies inside the signal. |
| PpgPlayback.ApplyPassInv | src/hooks/usePpgPlayback.ts:184-294 | An analytics pass keeps the playback invariant. |
| PpgPlayback.ApplyPassSpec | src/hooks/usePpgPlayback.ts:184-294 | An analytics pass stamps the metrics time and applies the smoothing rule. It merges exactly the window peaks newer than lastAbsPeak. The caption reads 'Collecting n/30' iff fewer than 30 entries are held, and otherwise shows the SDNN variance. SDNN is kept while collecting. The debug record reports peaks in view, nnCount, the rejected count, a non-negative MAD and the last IBI. Signal, cursor and display are untouched. |
| PpgPlayback.AnalyticsStepInv | src/hooks/usePpgPlayback.ts:167-295 | A due-time analytics step over any window keeps the invariant. |
| PpgPlayback.FrameRestInv | src/hooks/usePpgPlayback.ts:139-295 | The display refresh followed by the analytics check keeps the invariant. |
| PpgPlayback.GuiStepInv | src/hooks/usePpgPlayback.ts:143-161 | The display refresh keeps the invariant and changes only the refresh time and the displayed wave. |
| PpgPlayback.TickPreservesInv | src/hooks/usePpgPlayback.ts:96-295 | A whole frame keeps the invariant: cursor inside the signal, at most 30 in-range NN entries, an empty history while no peak has been seen, and rates of at least 40. |
| PpgPlayback.TickThrottles | src/hooks/usePpgPlayback.ts:96-295 | A frame always records its time. With no signal it does nothing else. No display change happens unless more than 100 ms have passed, and no metric change unless more than hrvUpdateMs have passed. A pass reports the window's own MAD. Signal and play state are never changed. |
| PpgPlayback.AdvanceStepFrame | src/hooks/usePpgPlayback.ts:97-121 | The clock step and advance change only the last time, the cursor, the history and lastAbsPeak. |
| PpgPlayback.FrameRestThrottles | src/hooks/usePpgPlayback.ts:139-295 | The refresh and pass obey the two throttles, and a pass reports the MAD of the window it analysed. |
| PpgPlayback.AnalyticsMadIsWindowMad | src/hooks/usePpgPlayback.ts:140-182 | The MAD reused from the display, or recomputed when the display left 0, is the window's MAD either way. |
| PpgPlayback.PublishedSpec | src/hooks/usePpgPlayback.ts:313-314 | The published RMSSD and pNN50 are null exactly while the caption says 'Collecting'. With 20 or more entries they are the true statistics, and with fewer they read 0. pNN50 lies in [0, 100]. |
| PpgPlayback.Playback.constructor | src/hooks/usePpgPlayback.ts:39-70 | Fields start at the initial state, which is valid. |
| PpgPlayback.Playback.Load | src/hooks/usePpgPlayback.ts:73-93 | The fields become the reload transition of the old state, and stay valid. |
| PpgPlayback.Playback.Reset | src/hooks/usePpgPlayback.ts:84-91 | With a nonempty signal, the fields become the reload transition. |
| PpgPlayback.Playback.ResetNnState | src/hooks/usePpgPlayback.ts:86-88 | Only the history, lastAbsPeak and rejected count are reset. |
| PpgPlayback.Playback.ResetOutputs | src/hooks/usePpgPlayback.ts:89-91 | Only bpm, SDNN and the caption are reset. |
| PpgPlayback.Playback.SetPlaying | src/hooks/usePpgPlayback.ts:54 | Only the play flag changes, and the state stays valid. |
| PpgPlayback.Playback.SmoothBpm | src/hooks/usePpgPlayback.ts:194-213 | The fields become the smoothing transition. |
| PpgPlayback.Playback.MergeNewPeaks | src/hooks/usePpgPlayback.ts:221-266 | The fields become the merge transition, and the method returns the merge's last accepted IBI. |
| PpgPlayback.Playback.UpdateCaptions | src/hooks/usePpgPlayback.ts:268-294 | The fields become the caption and debug transition. |
| PpgPlayback.Playback.RunAnalytics | src/hooks/usePpgPlayback.ts:167-295 | The fields become the analytics transition for this window. |
| PpgPlayback.Playback.AdvanceClock | src/hooks/usePpgPlayback.ts:97-121 | The fields become the clock-and-advance transition. |
| PpgPlayback.Playback.ExtractWindow | src/hooks/usePpgPlayback.ts:123-137 | The returned slice is the cursor window, and the returned start is floor(index) - windowSeconds*fs. |
| PpgPlayback.Playback.RefreshDisplay | src/hooks/usePpgPlayback.ts:143-161 | The fields become the display transition, and the method returns the MAD the display computed (0 when it did not run). |
| PpgPlayback.Playback.Frame | src/hooks/usePpgPlayback.ts:139-295 | The fields become the refresh-and-analytics transition. |
| PpgPlayback.Playback.Tick | src/hooks/usePpgPlayback.ts:96-297 | The fields become the one-frame transition, and stay valid. |
| Bounded.PushBoundedSpec | src/features/hrv/HRVCalculator.ts:29-32 | Below capacity the value is appended. At capacity the oldest entry is dropped. The result never exceeds the capacity, is the newest suffix, and ends with the new value. |
| HrvCalculator.AddRrRules | src/features/hrv/HRVCalculator.ts:25-33 | An RR below 300 or above 2000 changes nothing. An accepted one is appended, and only on overflow is the oldest dropped. The buffer stays within capacity and in range, it ends with the new RR, and the beat time is untouched. |
| HrvCalculator.AddRrKeepsInv | src/features/hrv/HRVCalculator.ts:25-33 | Adding an RR keeps the buffer within capacity and in [300, 2000]. |
| HrvCalculator.AddBeatRules | src/features/hrv/HRVCalculator.ts:17-23 | The first beat only records its time. A later beat feeds the time difference through the RR rule. The beat time is updated even when that RR is rejected. |
| HrvCalculator.ResetThenBeat | src/features/hrv/HRVCalculator.ts:75-78 | After a reset the buffer is empty and valid, and the next beat only records its time. |
| HrvCalculator.Round1Bounds | src/features/hrv/HRVCalculator.ts:70 | One-decimal rounding keeps a percentage in [0, 100]. |
| HrvCalculator.MetricsSpec | src/features/hrv/HRVCalculator.ts:35-73 | sampleCount is the buffer length. Fewer than 2 intervals give zeros. The squared RMSSD and SDNN are non-negative and are 0 iff the intervals are constant. pNN50 lies in [0, 100]. |
| HrvCalculator.ConstantMetrics | src/features/hrv/HRVCalculator.ts:35-73 | Identical intervals give all-zero metrics. |
| HrvCalculator.RoundedRootBelow20 | src/features/hrv/HRVCalculator.ts:64-68 | For any root r of the mean squared difference, the one-decimal rounded r is below 20 iff the square is below 398.0025. |
| HrvCalculator.HRVCalculator.constructor | src/features/hrv/HRVCalculator.ts:13-15 | An empty buffer with no beat time and the given capacity. |
| HrvCalculator.HRVCalculator.AddBeat | src/features/hrv/HRVCalculator.ts:17-23 | The fields become the beat transition, and stay valid. |
| HrvCalculator.HRVCalculator.AddRRInterval | src/features/hrv/HRVCalculator.ts:25-33 | The fields become the RR transition, and stay valid. The timestamp argument is ignored. |
| HrvCalculator.HRVCalculator.GetMetrics | src/features/hrv/HRVCalculator.ts:35-73 | The accumulating loop returns the specified metrics of the buffer. |
| HrvCalculator.HRVCalculator.Reset | src/features/hrv/HRVCalculator.ts:75-78 | The buffer empties and the beat time clears. |
| LiveMetrics.HandleSampleRules | src/features/hrv/useLiveMetrics.ts:28-56 | A truthy RR takes the RR path; an absent or 0 RR takes the beat path. The published rate is the sample's, and the metrics are the calculator's after the update. The history gains exactly one point at the end, dropping only the oldest beyond 300. |
| LiveMetrics.LiveMetricsHook.constructor | src/features/hrv/useLiveMetrics.ts:15-20 | A fresh calculator of capacity 256 and the cleared published value. |
| LiveMetrics.LiveMetricsHook.HandleSample | src/features/hrv/useLiveMetrics.ts:28-56 | The calculator takes the dispatch transition, and the published value takes the publish transition with the fresh metrics. |
| LiveMetrics.LiveMetricsHook.Reset | src/features/hrv/useLiveMetrics.ts:65-72 | The calculator is cleared and bpm 0, zero HRV and an empty history are published. |
| BleHeartRate.ParseRules | src/features/device/BleHeartRateDevice.ts:91-130 | A packet too short for its rate field gives no sample; otherwise a sample stamped with the given time. Flag bit 0 clear means bpm = byte 1 (<= 255), and set means the little-endian uint16 of bytes 1-2 (<= 65535). Bit 4 clear means no RR. Bit 4 set gives an RR iff two bytes follow the rate, and then it is raw*1000/1024. |
| BleHeartRate.ParseEncode | src/features/device/BleHeartRateDevice.ts:91-130 | Decoding an encoded packet, with any trailing bytes after the first RR, gives back the rate and the converted RR. |
| BleHeartRate.EnergyFlagIgnored | src/features/device/BleHeartRateDevice.ts:107-108 | Setting or clearing flag bit 3 never changes the decoded sample: the Energy Expended field is not skipped. |
| BleHeartRate.SameFlagBitsSameSample | src/features/device/BleHeartRateDevice.ts:93-95 | Only flag bits 0 and 4 are consulted. |
| BleHeartRate.RrToMsExamples | src/features/device/BleHeartRateDevice.ts:122-125 | Raw 1024 gives 1000 ms, 512 gives 500 ms, and 819 gives 799.8046875 ms. |
| BleHeartRate.WithoutSpec | src/features/device/BleHeartRateDevice.ts:54-56 | Filtering removes every occurrence of the callback and keeps every other listener. The length drops by the number of occurrences, and an absent callback leaves the list unchanged. |
| BleHeartRate.WithoutMultiset | src/features/device/BleHeartRateDevice.ts:54-56 | Every other listener stays registered exactly as many times as before, and the callback not at all. |
| BleHeartRate.WithoutAppend | src/features/device/BleHeartRateDevice.ts:55 | Removal distributes over concatenation, so the remaining listeners keep their registration order. |
| BleHeartRate.SubscribeUnsubscribe | src/features/device/BleHeartRateDevice.ts:50-56 | Subscribing a new callback and then unsubscribing it restores the list. |
| BleHeartRate.Deliveries | src/features/device/BleHeartRateDevice.ts:132-134 | One delivery per listener, in list order, each with the same sample. |
| BleHeartRate.BleHeartRateDevice.constructor | src/features/device/BleHeartRateDevice.ts:12 | The listener list starts empty. |
| BleHeartRate.BleHeartRateDevice.OnSample | src/features/device/BleHeartRateDevice.ts:50-52 | The callback is appended. |
| BleHeartRate.BleHeartRateDevice.OffSample | src/features/device/BleHeartRateDevice.ts:54-56 | The list becomes its filtered copy without the callback. |
| BleHeartRate.BleHeartRateDevice.NotifyListeners | src/features/device/BleHeartRateDevice.ts:132-134 | The loop delivers the sample to every listener in order. |
| BleHeartRate.BleHeartRateDevice.HandleValue | src/features/device/BleHeartRateDevice.ts:84-130 | An undecodable packet delivers nothing. Otherwise the decoded sample is delivered to every listener in order. |
| VitalStatus.BpmRules | src/lib/vitalStatus.ts:64-93 | A null or 0 rate is 'muted' and 'Analyzing...' with no warning. Above 240 or below 30 is 'muted' and 'Inv', with 'signal_invalid' first. In range: below low is 'danger' 'Low'; above high is 'High', 'warn' up to 100 and 'danger' above; otherwise 'ok' 'Normal'. |
| VitalStatus.ActiveHighIsDanger | src/lib/vitalStatus.ts:37-41 | In active mode a 'High' rate is always 'danger'. |
| VitalStatus.SdnnRules | src/lib/vitalStatus.ts:95-119 | Fewer than 30 NN or a null SDNN is 'muted' 'Collecting...'. Outside [0, 500] is 'muted' 'Inv' with 'hrv_invalid' last. Otherwise the bands are >= 100, [50, 100), [20, 50) and < 20. |
| VitalStatus.SdnnModeIndependent | src/lib/vitalStatus.ts:32-41 | The SDNN grade is the same in both modes. |
| VitalStatus.WarningsRules | src/lib/vitalStatus.ts:54-122 | There are at most two warnings. Each is present iff its condition holds, and there are none iff neither holds. When both are present, 'signal_invalid' precedes 'hrv_invalid'. |
| VitalStatus.ColorClassInjective | src/lib/vitalStatus.ts:125-132 | Distinct colours map to distinct classes. |
| BeatGenerator.GoalRules | src/features/beat/beatGenerator.ts:15-56 | Relax below RMSSD 20 gives 65 BPM, the ramp (0,65) (2,60) (5,55) and 5 minutes. Relax otherwise gives 55 BPM with no schedule and 5 minutes. Activate gives 90 BPM for 3 minutes; balance gives 60 BPM for 5. Each comes with its own description. |
| BeatGenerator.PatternShape | src/features/beat/beatGenerator.ts:15-56 | Accents are [1,0,0,0]. The base rate is 55, 60, 65 or 90, and the duration 3 or 5. A schedule starts at minute 0 at the base rate, ramps down, and ends within the session. |
| BeatGenerator.RelaxRampShape | src/features/beat/beatGenerator.ts:25-29 | The relax ramp has three points from (0, 65) to minute 5, with minutes increasing and rates decreasing. |
| BeatGenerator.OnlyRmssdConsulted | src/features/beat/beatGenerator.ts:8 | Two metric records with the same RMSSD give the same pattern. |
| BeatGenerator.RelaxRampFromStats | src/features/beat/beatGenerator.ts:23 | Fed the calculator's rounded RMSSD, relax gets a ramp iff the mean squared difference is below 398.0025. |

## Left out

- The bandpass filter (`biquadFilter`, `getBiquadCoeffs`, `applyBandpass`, src/lib/ppgMetrics.ts:33-96) is IIR floating-point numerics over trigonometric coefficients. The signal inversion before it goes with it. `Playback.Load` takes the already filtered signal. The filter keeps the length and maps empty to empty, so an empty filtered signal stands for an empty recording.
- `Math.sqrt` is not modelled. SDNN (src/lib/ppgMetrics.ts:262, src/features/hrv/HRVCalculator.ts:50) and RMSSD (src/lib/ppgMetrics.ts:275, src/features/hrv/HRVCalculator.ts:64) are carried as their squares.
- HrvCalculator.HRVCalculator.GetMetrics: returns the squared RMSSD and SDNN without the root and without their one-decimal rounding (src/features/hrv/HRVCalculator.ts:68-69). The pNN50 rounding is modelled exactly.
- PpgMetrics.HistoryStatsSpec: states the SDNN gate and properties on the variance rather than its square root.
- `toFixed(0)` in the SDNN caption (src/hooks/usePpgPlayback.ts:275) is not formatted. The caption holds the variance it would print.
- NaN (`isNaN(bpm)`, src/lib/vitalStatus.ts:65) has no counterpart among the reals.
- React state setters, effects, `requestAnimationFrame` and `performance.now` are not modelled. Published values are fields, and the frame timestamp is the `time` parameter of `Tick`. The debug field `renderMs` is dropped.
- PpgPlayback.Playback.Tick: requires `time >= lastTime`. Animation-frame timestamps never decrease, and the cursor invariant needs a non-negative dt.
- `Date.now()` in the decoder (src/features/device/BleHeartRateDevice.ts:111) is the `now` parameter.
- GATT `connect`, `disconnect` and `cleanup` are browser I/O. So are the audio engine, the demo device, session storage and the UI.
- Listener callbacks are modelled as identities (`nat`), delivery as a list of (listener, sample) records. What a callback does when called is outside the model.
- `nnTarget` in the configuration is not read by any modelled operation.
- The decoder takes only the first RR field and does not skip the Energy Expended field (src/features/device/BleHeartRateDevice.ts:107-108). With flag bit 3 set, the energy bytes are read as the RR. The model keeps this behaviour and proves that bit 3 is ignored.
- The published RMSSD and pNN50 (src/hooks/usePpgPlayback.ts:313-314) read 0, not null, after a reload or under the initial '--' caption. Only the text 'Collecting' suppresses them. The model keeps this behaviour.
- BleHeartRate.ParseRules: a packet too short for its rate or flags field makes `DataView` throw a `RangeError` out of the notification handler (src/features/device/BleHeartRateDevice.ts:93, 100, 103); the model returns no sample and delivers nothing, and does not model an escaping exception.
- VitalStatus.GetVitalStatus: the default arguments `mode = 'resting'` and `nnCount = 0` (src/lib/vitalStatus.ts:46-47) have no counterpart; the model takes all four arguments explicitly, as the callers pass them.
- RR raw 819 gives 799.8046875 ms as written (src/features/device/BleHeartRateDevice.ts:125), not 800 ms. The model follows the code.
