# Verification of the OpenTherm gateway firmware

Models, in Dafny 4.11, of the parts of the gateway's firmware that decide, compute or keep something: the
OpenTherm link layer, the calendar kernel, the reader-writer lock, the filters and controllers, the gas
accounting with its flash records, the sensor check, the modulation histogram, hot-water control, the WiFi
boot loop, the MQTT packets and the burner statistics. `dafny verify dfyconfig.toml` checks all of it.

## How the models are built

Code that changes variables step by step is a class with those variables; each method is proved to do what
a specification function says about the old state, and the theorems are about that function, usually over
whole runs. Interrupts, tasks, reboots and users are sequences of events: the theorems hold for every
sequence. C arithmetic is written out: 32-bit and 64-bit wrap-around as `%` (signed overflow too is taken to
wrap), division and remainder towards zero, bytes as `bv8` or as integers below 256, machine words of the
OpenTherm layer as bit sequences. Floats are reals. Hardware, clocks, flash and sockets are inputs: times,
levels, chunks of bytes, answers.

| files | subject |
|---|---|
| `Bits`, `OpenThermFrame`, `OpenThermLink`, `OpenThermReception`, `OpenThermTransaction`, `OpenThermOnTime` | the frame codec, the two interrupt handlers, decoding under jitter, one transaction and the task that waits for it, and its runs with the timer on time |
| `Calendar` | dates from Unix seconds |
| `SharedMutex` | the reader-writer lock, any number of tasks, every interleaving |
| `Common`, `Reals` | what several models share |
| `Kalman2D`, `Kalman1D`, `Pid`, `DhwPrediction` | filters, the heating controller, the hot-water prediction |
| `GasBuckets`, `GasHistory`, `GasFlow` | gas by hour and day, the ring of days, its flash records over reboots, the service object |
| `GasCorrection` | meter corrections, the calibration factor, the log and its migration |
| `Crc8` | the DS18B20 check |
| `ModulationStats`, `BurnCycle` | histogram percentiles with ageing, burn and pause times |
| `DhwControl` | the hot-water latch and the status byte |
| `Wifi` | stored settings and the reboot loop |
| `Mqtt` | Remaining Length, PUBLISH, reception in pieces |

## What does not hold as promised

The lemmas named state each of these, with the condition under which it happens.

- A received frame's parity bit is never checked (`ParseReadsFieldsOnly`).
- The reply window is a comparison of 32-bit milliseconds: it is 800 ms if and only if the deadline does not
  wrap (`FullWindowIffNoWrap`); the first tick already reports an error if and only if it wraps and the clock
  does not wrap with it, as it does from its last half millisecond (`PrematureErrorIff`); and a deadline of
  exactly 2^32 - 1 never passes (`WindowNeverCloses`).
- With that deadline, and with ticks on time with no other, the task's wait can expire just before the link
  completes. The token left behind wakes the next transaction, which takes an old register for a reply
  (`OnTimeRunsNeverGiveUp`, `StaleTokenWakesNextTransaction`).
- The delay between transactions exceeds 100 ms if and only if more than half the clock's range and 100 ms
  have passed since the last one (`GapIsKept`).
- `shared_mutex.h` promises that a writer excludes readers. The lock admits a reader beside a writer while a
  first reader is parked between counting itself and taking the semaphore: exactly in the states of
  `Guarantees`, entered exactly by the steps of `OverlapBeginsIff`, and reachable (`OverlapIsReachable`).
- Before 1970 the date is wrong except at midnight, because the day count is truncated towards zero
  (`DateIsRightIff`).
- The gas service reads the clock twice per execution. When midnight passes between, the day's total and the
  sum of its hours come apart at once if the hour has collected anything (`SumsSurviveIff`), and otherwise with
  the next gas burnt; with both readings on one day they never do (`SumsLastIffSameDay`).
- A scratchpad of zeros passes the CRC (`AllZerosAccepted`).
- The test that guards meter corrections against lost gas lets through every loss that leaves the integral a
  tenth of what was burnt, and each raises a factor that was right (`LossRaisesFactorIff`). Restarts lose gas:
  they go back to the integral last saved, which happens every 150 s. What was lost is forgotten with later
  readings (`LossesAreForgotten`).
- A flame edge at a zero of the 32-bit clock, and at no other time, is taken for no edge and its interval is
  dropped (`DroppedIffZeroTimestamp`).
- An enable command written while the opposite one is queued is overruled by it, and only then
  (`HeatingFollowsCommands`, `OffTakesEffect`). The firmware only writes (`HeatingFollowsWrites`): nothing in it
  calls the queueing setters of the boiler poll.
- Saving WiFi settings does not clear the failure count (`SaveLoad`); the boot's own integrity
  checks can never fire (`IntegrityChecksAreRedundant`).
- The hot-water filter's clock restarts at zero with every session and after every gap of more than 15 s,
  its measurements' clock does not: the next step is the uptime, at most a minute, whatever time has really
  passed (`StepAfterReset`, `StepsAfterReset`).
- A PUBLISH whose fixed header is split, or of which a piece comes late, can be queued with a truncated payload
  as if it were complete, or be lost (`SplitHeaderTruncatesMessage`, `SplitHeaderLosesMessage`), under exactly
  the conditions of `PublishArrivesIff`. A length field of five bytes or more can make the reader wait for a
  wrong length (`WaitsAsAnnouncedIff`).

## Model

| member | source | states |
|---|---|---|
| OpenThermFrame.FrameParityCountsOnes | main/c_legacy/opentherm.c:72-78 | XOR folding computes the number of ones modulo 2, for every 32-bit word |
| OpenThermFrame.FrameWordLayout | main/c_legacy/opentherm.c:80-87 | the message word is value, id, four zero bits, three type bits and parity, as in section 4.2 of the OpenTherm Protocol Specification v2.2 |
| OpenThermFrame.FrameWordIsEven | main/c_legacy/opentherm.c:85-87 | every word built has an even number of ones |
| OpenThermFrame.BuildFrameLayout | main/c_legacy/opentherm.c:89-90 | the transmit word is the stop bit, the message word and the start bit at bit 33 |
| OpenThermFrame.ParseBuild | main/c_legacy/opentherm.c:80-100 | unpacking a built frame returns it, up to the high five bits of the type |
| OpenThermFrame.ParseReadsFieldsOnly | main/c_legacy/opentherm.c:93-100 | two words unpack alike if and only if they agree in the three fields: parity is never checked |
| OpenThermLink.OpenThermIsr.TimerCallback | main/c_legacy/opentherm.c:108-153 | the timer interrupt performs exactly the tick step on all shared variables |
| OpenThermLink.OpenThermIsr.RxIsr | main/c_legacy/opentherm.c:169-214 | the edge interrupt performs exactly the edge step, with 64-bit time differences |
| OpenThermLink.OpenThermIsr.StartTransmission | main/c_legacy/opentherm.c:412-416 | entering transmission changes these four variables and leaves the semaphore alone |
| OpenThermLink.TransmitsManchester | main/c_legacy/opentherm.c:112-135 | whatever edges intervene, tick k drives half-bit k of the Manchester code, most significant bit first |
| OpenThermLink.FinishedIsAbsorbing | main/c_legacy/opentherm.c:150-151 | after completion or error no tick or edge changes anything |
| OpenThermLink.WaitingOnlyCompletes | main/c_legacy/opentherm.c:137-214 | from the open window every interleaving leads to still waiting, or to exactly one of completion and error, with exactly one give |
| OpenThermLink.OneCompletion | main/c_legacy/opentherm.c:108-153 | in every interleaving tick 69 and no other opens the window, and at most one completion follows |
| OpenThermReception.LateEdgeAccepted | main/c_legacy/opentherm.c:194-211 | an edge more than 750 microseconds after the last accepted one is taken for the next bit, and the bit is right if and only if it is the inverted level |
| OpenThermReception.BitReceivedIff | main/c_legacy/opentherm.c:194-213 | after the edges of a bit the receiver has one bit more, and the right one, if and only if the border edge, where there is one, is early and the mid-bit edge late |
| OpenThermReception.FollowsFrameIffTolerable | main/c_legacy/opentherm.c:169-214 | the tolerance is exact: the receiver locks on the start bit and has after each bit exactly the bits so far if and only if the jitter is tolerable |
| OpenThermReception.ReceiveFrame | main/c_legacy/opentherm.c:169-214 | under any tolerable jitter the receiver finishes with exactly the 33 bits after the start bit |
| OpenThermReception.TicksInTimeAreSilent | main/c_legacy/opentherm.c:137-148 | ticks before the deadline, interleaved anywhere, do not disturb reception |
| OpenThermReception.RoundTripUnderJitter | main/c_legacy/opentherm.c:80-214 | for every frame, every tolerable jitter and every placement of ticks, the received word unpacks to the frame |
| OpenThermReception.SurvivesQuarterJitter | main/c_legacy/opentherm.c:80-214 | in particular every frame survives half-bits of any lengths between 376 and 749 microseconds |
| OpenThermReception.EmittedCarries | main/c_legacy/opentherm.c:123-133 | the levels the transmitter drives, sampled after each tick, are the Manchester code of the frame |
| OpenThermReception.TransmitThenReceive | main/c_legacy/opentherm.c:80-214 | transmitter, wire with jitter and receiver composed return the frame that was built |
| OpenThermReception.StartLocksOnShortPulse | main/c_legacy/opentherm.c:174-193 | after a rising edge the next one starts reception if and only if it falls and comes within 750 microseconds; a falling edge alone does nothing |
| OpenThermTransaction.WindowCloses | main/c_legacy/opentherm.c:119-120 | with ticks on time the window closes within 1602 ticks, frame or no frame, unless its deadline is the clock's last value |
| OpenThermTransaction.WindowNeverCloses | main/c_legacy/opentherm.c:141-146 | with the deadline at the clock's last value, silence is never reported |
| OpenThermTransaction.SilenceIsReported | main/c_legacy/opentherm.c:137-148 | without edges the window ends in error, if and only if the deadline is not the clock's last value |
| OpenThermTransaction.FullWindowIffNoWrap | main/c_legacy/opentherm.c:119-142 | the window lasts its 800 ms if and only if the deadline does not wrap |
| OpenThermTransaction.PrematureErrorIff | main/c_legacy/opentherm.c:119-146 | the first tick of the window reports an error if and only if the deadline wraps and the clock has not wrapped with it by that tick |
| OpenThermTransaction.CompletesBeforeTheWaitExpires | main/c_legacy/opentherm.c:412-420 | whatever edges arrive, a transaction has completed by tick 1671 (835.5 ms), before the 1000 ms wait expires, unless its deadline is the clock's last value |
| OpenThermTransaction.GapIsKept | main/c_legacy/opentherm.c:396-400 | the delay keeps frames 100 ms apart for every pair of times, in signed 32-bit arithmetic; up to half the clock's range it is what is missing of the 100 ms; it is at most 100 ms if and only if at most half the range and 100 ms have passed, modulo that range |
| OpenThermTransaction.StepKeepsConsistent | main/c_legacy/opentherm.c:402-438 | task, phase and semaphore stay in agreement at every step, except, and only, when a completed link is abandoned |
| OpenThermTransaction.RunsStayConsistent | main/c_legacy/opentherm.c:402-438 | the same over every run without that step |
| OpenThermTransaction.ReadsOnlyCompletedFrames | main/c_legacy/opentherm.c:428-438 | in such runs the task reads a frame only after the receiver has completed one |
| OpenThermOnTime.OnTimeRunsNeverGiveUp | main/c_legacy/opentherm.c:394-440 | with ticks on time, over any number of transactions and any edges, even with a wait of 835.5 ms and without gaps, the wait never expires, task and link always agree and only completed frames are read, as long as no transaction has the clock's last value for a deadline |
| OpenThermOnTime.StaleTokenWakesNextTransaction | main/c_legacy/opentherm.c:396-437 | from every start time with that deadline a run exists, with ticks on time, edges stamped as they come, the wait of 1000 ms and the gap of 100 ms, in which the wait expires, the last bit then completes the link, and the next transaction wakes before it has sent anything and takes the register, with all 33 bits of the old reply, for its own |
| Calendar.YearOfEraIsCorrect | main/infrastructure/driven/web_presenter_adapter.cpp:32 | the corrected quotient is the year of the era that contains the day |
| Calendar.CivilSuccessor | main/infrastructure/driven/web_presenter_adapter.cpp:26-45 | for every integer day the result is a Gregorian date, and the next day's is its successor |
| Calendar.CivilCountsDays | main/infrastructure/driven/web_presenter_adapter.cpp:26-45 | for every integer day the closed form equals counting days one at a time from 1970-01-01 |
| Calendar.TimeOfDay | main/infrastructure/driven/web_presenter_adapter.cpp:39-44 | hours, minutes and seconds are in range and recompose to the second of the day |
| Calendar.DateIsRightIff | main/infrastructure/driven/web_presenter_adapter.cpp:29-40 | the date is that of the second's own day if and only if the time is not before 1970 or is a midnight |
| SharedMutex.Mutex.CountIn | main/infrastructure/freertos/shared_mutex.c:13-24 | counting a reader in, and whether it is the first |
| SharedMutex.Mutex.CountOut | main/infrastructure/freertos/shared_mutex.c:26-37 | counting a reader out, and whether it was the last |
| SharedMutex.TakeSucceedsIff | main/infrastructure/freertos/shared_mutex.c:20-42 | in every reachable state a take succeeds if and only if no writer is in, no group of readers holds the lock and no last reader owes the token |
| SharedMutex.GiveHandsOver | main/infrastructure/freertos/shared_mutex.c:33-47 | a give is always the holder's; after it the giver is out, nobody holds the lock and a take succeeds |
| SharedMutex.ActionLeadsTo | main/infrastructure/freertos/shared_mutex.c:13-48 | in every reachable state: entering parks the task if and only if no reader is counted, leaving owes the token if and only if no other is, only a take lets a parked reader or a writer in, and no action moves another task |
| SharedMutex.StepInv | main/infrastructure/freertos/shared_mutex.c:13-48 | every atomic step of every task keeps the lock's invariant |
| SharedMutex.Guarantees | main/infrastructure/freertos/shared_mutex.c:13-48 | in every interleaving of any number of tasks: there is exactly one token, free or with one holder, at most one writer is in, and a reader and a writer are in together if and only if a writer is in and two readers or more are counted |
| SharedMutex.OverlapBeginsIff | main/infrastructure/freertos/shared_mutex.c:13-43 | the step that lets them in together is a reader entering past a counted one while a writer is in, or a writer's take while more than one reader is counted, and every such step |
| SharedMutex.GivesOnlyWhenTaken | main/infrastructure/freertos/shared_mutex.c:33-47 | the token is never given while free |
| SharedMutex.TwoWritersNever | main/infrastructure/freertos/shared_mutex.c:39-48 | two writers are never inside |
| SharedMutex.WriterTakes | main/infrastructure/freertos/shared_mutex.c:39-43 | a writer gets in only with no reader counted, or past a parked first reader |
| SharedMutex.OverlapIsReachable | main/infrastructure/freertos/shared_mutex.c:16-23 | with any three tasks a run exists that has a reader and a writer inside |
| SharedMutex.NoDeadlock | main/infrastructure/freertos/shared_mutex.c:13-48 | in every reachable state with a task in the lock, one of those can move |
| Kalman2D.PredictPropagatesVariance | main/domain/services/kalman2d.h:35-39 | the predict step moves the state by the rate and gives every combination of the two the variance of where it came from, plus the process noise |
| Kalman2D.InformationForm | main/domain/services/kalman2d.h:41-51 | the corrected covariance is the inverse of the predicted inverse plus the measurement's information |
| Kalman2D.CorrectionIsOptimal | main/domain/services/kalman2d.h:41-48 | the corrected state is the unique best fit of prediction and measurement |
| Kalman2D.PredictKeepsDefinite | main/domain/services/kalman2d.h:35-39 | prediction keeps the covariance positive definite |
| Kalman2D.CorrectKeepsDefinite | main/domain/services/kalman2d.h:41-51 | so does correction, and it leaves the temperature variance below a measurement's |
| Kalman2D.EveryRunStaysDefinite | main/domain/services/kalman2d.h:7-54 | over every run of resets and updates the covariance is positive definite, so the variance under the prediction's square root is positive |
| Kalman2D.LineIsTracked | main/domain/services/kalman2d.h:23-54 | over every run of measurements on a line, a millisecond to a minute apart, the state stays on the line: the step is the time since the last measurement |
| Kalman2D.GapsAreClamped | main/domain/services/kalman2d.h:30-33 | a gap of more than a minute counts as a minute, and a shorter one than a millisecond, or a clock gone back, as a millisecond |
| Kalman2D.KalmanFilter.ResetTo | main/domain/services/kalman2d.h:10-18 | the reset, on the fields |
| Kalman2D.KalmanFilter.Measure | main/domain/services/kalman2d.h:23-54 | the update on the fields is predict, then correct, with the clamped time step |
| DhwPrediction.ExecuteKeepsSound | main/application/services/dhw_predict_service.cpp:71-207 | every poll keeps: a session is active exactly while hot water is heated, the filter is definite, a prediction is shown only in a session of two polls or more and is in range, recorded rates are positive, and flash holds the history |
| DhwPrediction.HistoryIsLastThree | main/application/services/dhw_predict_service.cpp:110-136 | over every life with reboots the ring is the rates of the last three finished sessions |
| DhwPrediction.EveryLifeIsSound | main/application/services/dhw_predict_service.cpp:138-207 | over every life from empty flash, whenever a prediction is shown the variance under its square root is positive |
| DhwPrediction.PriorIsMean | main/application/services/dhw_predict_service.cpp:48-54 | a session starts from the mean of the history, which lies between its smallest and largest rate |
| DhwPrediction.StepAfterReset | main/domain/services/kalman2d.h:10-33 | the step after a reset is the uptime within the filter's limits: the smallest if and only if it is the first millisecond after boot, a whole minute if and only if a minute has passed since |
| DhwPrediction.StepsAfterReset | main/application/services/dhw_predict_service.cpp:71-105 | that is how the first measurement of every session is filtered, and the one after every gap of more than 15 s |
| DhwPrediction.SessionsAreKept | main/application/services/dhw_predict_service.cpp:71-207 | a session starts with the first poll that finds hot water heated, from its temperature and clock, counts such polls, filters each from the one before unless that is more than 15 s ago, and ends with the first other poll |
| DhwPrediction.PredictionInNumbers | main/application/services/dhw_predict_service.cpp:138-172 | a prediction is shown if and only if a session of two polls or more is active; it is the whole seconds nearest to rise over rate, to root times rise over squared rate (at least 15), and to the session's age, for a rise of at least 0.5 and a rate of at least 0.002 |
| DhwPrediction.RateInNumbers | main/application/services/dhw_predict_service.cpp:110-136 | a finished session leaves its rise over its time, or 0.03 if it had two polls or fewer, took 10 s or less or rose by less than 0.002 degrees a second |
| DhwPrediction.DhwPredictService.GetPriorRate | main/application/services/dhw_predict_service.cpp:48-54 | the averaging loop |
| DhwPrediction.DhwPredictService.Start | main/application/services/dhw_predict_service.cpp:71-85 | a session's start, on the fields and the filter |
| DhwPrediction.DhwPredictService.UpdateWith | main/application/services/dhw_predict_service.cpp:87-108 | a session's poll, with the reset after a gap of more than 15 s |
| DhwPrediction.DhwPredictService.Push | main/application/services/dhw_predict_service.cpp:138-172 | the prediction shown, or none before the second poll, from a given root |
| DhwPrediction.DhwPredictService.Finish | main/application/services/dhw_predict_service.cpp:110-136 | a session's end, with the ring and flash updated |
| DhwPrediction.DhwPredictService.Run | main/application/services/dhw_predict_service.cpp:176-207 | start, update and finish in this order, on the edges of the two flags |
| Pid.Controller.PidStep | main/domain/services/pid_algorithm.h:31-58 | the step, on the fields |
| Pid.IntegratesIff | main/domain/services/pid_algorithm.h:48-54 | the integral moves, by the whole ki e dt, if and only if the error does not push a saturated output further out |
| Pid.DerivativeStep | main/domain/services/pid_algorithm.h:35-41 | the filtered derivative keeps nine tenths and takes a tenth of kd times the fall per second, so a rising temperature lowers it |
| Pid.UnsaturatedLaw | main/domain/services/pid_algorithm.h:31-58 | over every run whose outputs stay off the ends the integral is its start plus ki times the sum of error times seconds, and the output is kp times the error, plus the integral, plus the filtered derivative |
| Pid.StepBounded | main/domain/services/pid_algorithm.h:31-58 | one step keeps derivative, integral and output within their bounds |
| Pid.AntiWindup | main/domain/services/pid_algorithm.h:24-58 | over every run from the initial state with bounded measurements, the derivative, the integral and the output stay within bounds that depend on the gains and limits only |
| Pid.DerivativeLaw | main/domain/services/pid_algorithm.h:39-40 | under a constant slope exactly 0.9^n of the filtered derivative's distance to kd times the fall per second is left after n steps |
| Pid.ConstantErrorLaw | main/domain/services/pid_algorithm.h:31-58 | without derivative gain, under a constant positive error, the output of step n is the clamped ramp kp e + I0 + n ki e dt |
| Pid.SaturatesExactlyFrom | main/domain/services/pid_algorithm.h:42-54 | so the output is at its maximum from exactly a step that can be computed beforehand, for ever |
| GasBuckets.NewestAfterPush | main/application/services/gas_flow_estimator.cpp:205-216 | the day just archived is the newest |
| GasBuckets.ExecuteAddsTheFlow | main/application/services/gas_flow_estimator.cpp:76-174 | an execution adds flow times hours to integral, day and hour, if the burner fires and the gap is under a minute; the first one after start-up only sets the time |
| GasBuckets.FreshIsEmpty | main/application/services/gas_flow_estimator.h:86-127 | a new service has counted nothing, knows no day and has nothing to save |
| GasBuckets.ExecuteConserves | main/application/services/gas_flow_estimator.cpp:76-259 | an execution keeps every bucket sum, when its two clock readings fall on one day |
| GasBuckets.SumsKeptIff | main/application/services/gas_flow_estimator.cpp:148-259 | one execution, from any state in which the totals are the sums of their hours, keeps them so if and only if the current hour has collected nothing or its gas is kept: it stays the tracked day's hour, is filed, or its day is closed without a yesterday |
| GasBuckets.SumsSurviveIff | main/application/services/gas_flow_estimator.cpp:148-259 | from a conserved state: if and only if the day does not end, or the hour ends with it, or the hour has collected nothing |
| GasBuckets.SumsLastIffSameDay | main/application/services/gas_flow_estimator.cpp:170-259 | the sums hold after this execution and after all further steady ones if and only if its two readings fall on one day |
| GasBuckets.StraddledMidnightLosesTheLastHour | main/application/services/gas_flow_estimator.cpp:170-259 | otherwise yesterday's hours miss exactly the last hour |
| GasHistory.PushAppends | main/application/services/gas_flow_estimator.cpp:205-216 | archiving a day is appending it and keeping the newest 64 |
| GasHistory.LoadedView | main/application/services/gas_flow_estimator.cpp:370-379 | loading shows the record's first days in order, for every stored head and count, even out of range: none for a negative count, at most 64 |
| GasHistory.HistoryRoundTrip | main/application/services/gas_flow_estimator.cpp:324-386 | packing and loading preserves all completed days, for every head position and over any memory |
| GasHistory.TodayRoundTrip | main/application/services/gas_flow_estimator.cpp:306-368 | the running day comes back unchanged if and only if its hour belongs to it, or is not known and empty |
| GasHistory.LoadedHourBelongs | main/application/services/gas_flow_estimator.cpp:349-368 | for any stored running day, even out of range, the hour loaded is one of its own day, or unknown and empty |
| GasHistory.EveryRunConserves | main/application/use_cases/persistence_loop_interactor.cpp:34-69 | over every run of ticks, clock losses, corrections, saves and reboots, the totals equal the sums of their hours, likewise for hot water |
| GasHistory.EveryRunKeepsNewestDays | main/application/use_cases/persistence_loop_interactor.cpp:58-68 | over every such run the ring is the newest 64 of all completed days, a reboot forgetting only days completed since the last save: the dirty flag loses nothing |
| GasHistory.RebootComesBackToTheSave | main/application/services/gas_flow_estimator.cpp:306-386 | after every run, a reboot comes back to the completed days, the yesterday and the running day of the last save, whatever happened since; before the clock was synced, without the current hour |
| GasHistory.ExecuteKeepsOrder | main/application/services/gas_flow_estimator.cpp:218-259 | the days are listed once each, in order, as long as the clock does not go back past today |
| GasHistory.ChartsAgree | main/application/services/gas_flow_estimator.cpp:261-304 | today's hourly bars add up to today's daily bar, and yesterday's to the newest completed day's |
| GasHistory.HourStandsInItsBar | main/application/services/gas_flow_estimator.cpp:280-304 | in every state the current hour's gas stands in the bar of that hour of that day and in no other |
| GasHistory.DailyViewOverRuns | main/application/services/gas_flow_estimator.cpp:261-278 | over every run and for every size the daily view lists the newest 64 days ever completed, oldest first, then the tracked day with the sums of its hourly bars if there is room |
| GasHistory.HourlyViewOverRuns | main/application/services/gas_flow_estimator.cpp:280-304 | over every run and for every size the hourly view lists 24 bars of yesterday that add up to the newest completed day, then 24 of the tracked day that add up to it, cut at the size |
| GasHistory.ExecuteMovesTheCharts | main/application/services/gas_flow_estimator.cpp:148-304 | an execution adds its volume to the bar of the current hour and to no other; leaving an hour changes no bar; over midnight the same bars become yesterday's; after any other jump there is no yesterday |
| GasHistory.SteadyBurnIsIntegrated | main/application/services/gas_flow_estimator.cpp:148-164 | a burn at constant flow, executed at least once a minute, is integrated to flow times elapsed time, over clock wraps |
| GasFlow.GasFlowService.Accumulate | main/application/services/gas_flow_estimator.cpp:148-164 | the accumulation, on the fields |
| GasFlow.GasFlowService.Execute | main/application/services/gas_flow_estimator.cpp:76-174 | a whole execution on the fields and arrays: accumulate, hourly, daily, in this order |
| GasFlow.GasFlowService.UpdateHourlyTracking | main/application/services/gas_flow_estimator.cpp:176-203 | the hourly step, on the fields and arrays |
| GasFlow.GasFlowService.PushDaily | main/application/services/gas_flow_estimator.cpp:205-216 | the ring update in place |
| GasFlow.GasFlowService.UpdateDailyTracking | main/application/services/gas_flow_estimator.cpp:218-259 | the daily step with its copying loops |
| GasFlow.GasFlowService.GetDailyView | main/application/services/gas_flow_estimator.cpp:261-278 | completed days oldest first, then today if there is room |
| GasFlow.GasFlowService.GetHourlyView | main/application/services/gas_flow_estimator.cpp:280-304 | yesterday's and today's hours, cut at the caller's size |
| GasFlow.GasFlowService.PackTodayBlob | main/application/services/gas_flow_estimator.cpp:306-322 | the record of the running day |
| GasFlow.GasFlowService.PackHistoryBlob | main/application/services/gas_flow_estimator.cpp:324-340 | the ring unrolled into its record |
| GasFlow.GasFlowService.ConsumeHistoryDirty | main/application/services/gas_flow_estimator.cpp:342-347 | reports the flag once |
| GasFlow.GasFlowService.LoadDaily | main/application/services/gas_flow_estimator.cpp:349-386 | start-up from the two records, present or not |
| GasCorrection.MigrationCommutesWithUse | main/infrastructure/driven/gas_correction_nvs_store.cpp:27-51 | a 32-slot log with any head and count, migrated and then appended to, shows the last ten of old entries and new |
| GasCorrection.LoadLegacy | main/infrastructure/driven/gas_correction_nvs_store.cpp:27-51 | the migration loop, over any stored count and head, and that it shows the last ten of the old log |
| GasCorrection.AppendShows | main/application/use_cases/gas_correction_interactor.cpp:114-127 | logging a correction appends it and keeps the last ten |
| GasCorrection.AppendAllShows | main/infrastructure/driven/web_presenter_adapter.cpp:364-373 | the display formula lists any number of appended entries oldest first |
| GasCorrection.CorrectionReconciles | main/application/use_cases/gas_correction_interactor.cpp:69-153 | an accepted correction makes base plus integral the reading and logs it; a rejected one changes nothing but the base in the record |
| GasCorrection.FactorOnAcceptance | main/domain/value_objects/gas_correction_metrics.h:19-22 | for an accepted correction the factor is the true ratio, above 0 and at most 10: the fallback is never used |
| GasCorrection.FactorIsClamped | main/application/use_cases/gas_correction_interactor.cpp:103-110 | the factor set is the filter's estimate between 0.1 and 10 |
| GasCorrection.ResetStartsOver | main/application/use_cases/gas_correction_interactor.cpp:155-169 | a reset empties the log, sets factor and filter to 1 and keeps base and integral; the next accepted correction is the only entry and weighs its ratio against 1 as 1.02 against 1 |
| GasCorrection.FactorStaysBounded | main/application/use_cases/gas_correction_interactor.cpp:19-169 | over every run of corrections, resets, restarts and manual factors, the calibration factor stays in any range that holds the start value, [0.5, 2] and the manual factors |
| GasCorrection.FactorBoundFromStart | main/application/use_cases/gas_correction_interactor.cpp:97-105 | without manual factors, between min(k0, 0.5) and max(k0, 2) |
| GasCorrection.TrueFactorRecovered | main/application/use_cases/gas_correction_interactor.cpp:97-102 | if the boiler burns c times the uncalibrated estimate, the raw factor is c, whatever the current one |
| GasCorrection.FactorIsLearnt | main/domain/services/kalman1d.h:9-15 | n corrections with the same raw factor leave at most (1/1.02)^n of the initial error |
| GasCorrection.AcceptedIff | main/application/use_cases/gas_correction_interactor.cpp:83-95 | a reading of a boiler that burns c times the uncalibrated model is accepted if and only if 0.01 cubic metres were burnt and the integral counts a tenth of that; if no gas is lost, if and only if the factor is at least c/10 |
| GasCorrection.RawWithLoss | main/application/use_cases/gas_correction_interactor.cpp:97-102 | an accepted reading takes for the factor c times the gas burnt over the gas the integral counts, within [0.5, 2]: lost gas can only raise it, and it is the true one if and only if none was lost or both are cut at the same end |
| GasCorrection.LossRaisesFactorIff | main/application/use_cases/gas_correction_interactor.cpp:83-105 | with the factor right, a reading raises it above the true one if and only if gas was lost and the integral still counts a tenth: the loss test stops only larger losses |
| GasCorrection.LifeLearnsTheFactor | main/application/use_cases/gas_correction_interactor.cpp:69-153 | over every life of burns, seen or not, readings, saves and restarts from the integral last saved, n accepted readings leave at most (1/1.02)^n of the factor's distance to c, or to the end of [0.5, 2] nearest to c, if each recovers in that sense |
| GasCorrection.LossesAreForgotten | main/application/use_cases/gas_correction_interactor.cpp:69-153 | over every such life, whatever was lost, n recovering readings in a row leave at most (1/1.02)^n of the initial distance or of 1.5 |
| GasCorrection.GasCorrectionInteractor.AddMeterCorrection | main/application/use_cases/gas_correction_interactor.cpp:69-153 | a correction on the fields and the log array, with its result |
| GasCorrection.GasCorrectionInteractor.ResetAll | main/application/use_cases/gas_correction_interactor.cpp:155-169 | log cleared, factor and filter at 1, base kept |
| Kalman1D.UpdateStaysInHull | main/domain/services/kalman1d.h:9-15 | the gain is strictly between 0 and 1, the variance stays positive, the estimate moves towards the measurement and not past it |
| Kalman1D.UpdateIsWeightedMean | main/domain/services/kalman1d.h:9-15 | the new estimate is the mean of old estimate and measurement weighted by each other's variance, and precisions add |
| Kalman1D.FirstUpdate | main/domain/services/kalman1d.h:9-20 | after a reset the start value weighs r and the first measurement 1 + q |
| Kalman1D.UpdateApproaches | main/domain/services/kalman1d.h:9-15 | each update shrinks the distance to the measurement at least by r/(q+r) |
| Kalman1D.KalmanFilter.Measure | main/domain/services/kalman1d.h:9-15 | the update, on the fields |
| Crc8.ReadByte | main/c_legacy/sensors.c:71-79 | a byte is assembled from its eight slots, lowest bit first |
| Crc8.ComputeCrc | main/c_legacy/sensors.c:100-109 | the nested loop is the register fed with all bits in the order of the wire |
| Crc8.FeedAllIsLinear | main/c_legacy/sensors.c:103-108 | the CRC is linear over exclusive or, in register and message together |
| Crc8.FeedIsBijective | main/c_legacy/sensors.c:104-106 | a step can be undone |
| Crc8.FeedByteIsBijective | main/c_legacy/sensors.c:102-108 | feeding a byte is a bijection: from every register exactly one byte, and with every byte exactly one register, leads to a given one |
| Crc8.AcceptsIffResidueZero | main/c_legacy/sensors.c:100-110 | a message of any length passes if and only if the residue over data and CRC byte is zero |
| Crc8.UndetectedIff | main/c_legacy/sensors.c:100-110 | a corruption goes unnoticed if and only if its own residue is zero |
| Crc8.TwoFlipsResidue | main/c_legacy/sensors.c:100-110 | two flipped bits go unnoticed if and only if they are a multiple of 127 bits apart |
| Crc8.CorruptionIsRejected | main/c_legacy/sensors.c:98-110 | any burst of up to eight bits and any odd number of flips is rejected at any length, and up to fifteen bytes any one, two or three flips |
| Crc8.AllZerosAccepted | main/c_legacy/sensors.c:98-113 | a scratchpad of zeros passes |
| Crc8.ReadTemp | main/c_legacy/sensors.c:91-116 | succeeds if and only if one of three attempts is good, with bytes 1 and 0 of the first good one as a signed number of sixteenths; otherwise -127 |
| ModulationStats.ModulationStatsService.Execute | main/application/services/modulation_stats_service.cpp:22-44 | one poll on the array, keeping the counter exact and below the threshold |
| ModulationStats.ModulationStatsService.Decay | main/application/services/modulation_stats_service.cpp:46-54 | the halving loop |
| ModulationStats.ModulationStatsService.Reset | main/application/services/modulation_stats_service.cpp:56-60 | the clearing loop |
| ModulationStats.ModulationStatsService.GetPercentile | main/application/services/modulation_stats_service.cpp:62-79 | the loop returns the order statistic of the sorted bins, with one sample as with many, and never runs off its end |
| ModulationStats.ModulationStatsService.LoadFromStore | main/application/services/modulation_stats_service.cpp:92-112 | takes over the stored histogram unless it predates ageing |
| ModulationStats.ExecuteKeepsConsistent | main/application/services/modulation_stats_service.cpp:22-54 | the counter is always the sum of the bins and below 50000 |
| ModulationStats.DecayLeavesHalf | main/application/services/modulation_stats_service.cpp:46-54 | the 50000th sample ages the histogram: 24950 to 25000 samples stay, and every cumulative count within 100 of half, in doubled scale |
| ModulationStats.RankInBin | main/application/services/modulation_stats_service.cpp:72-77 | the element of rank k of the sorted list is i if and only if the cumulative counts around i enclose k |
| ModulationStats.PercentileMonotone | main/application/services/modulation_stats_service.cpp:62-79 | percentiles are ordered and within the scale |
| ModulationStats.PercentileIsOrderStatistic | main/application/services/modulation_stats_service.cpp:22-79 | before the first ageing the percentile is the whole percent of the order statistic of the modulations actually seen with the flame on |
| ModulationStats.StoreRoundTrip | main/application/services/modulation_stats_service.cpp:92-112 | every histogram the service can have is loaded back unchanged |
| ModulationStats.LoadConsistentIff | main/application/services/modulation_stats_service.cpp:92-112 | loading keeps the counter equal to the sum of the bins if and only if the record predates ageing or its counter is that sum |
| BurnCycle.BurnCycleService.Execute | main/application/services/burn_cycle_service.cpp:12-46 | one poll, on the fields |
| BurnCycle.BurnCycleService.ResetCounters | main/application/services/burn_cycle_service.cpp:48-57 | the counters are cleared, the edges kept |
| BurnCycle.MeasuredIff | main/application/services/burn_cycle_service.cpp:25-39 | an interval is measured to within half a second if and only if it is at most 2^32 - 501 ms |
| BurnCycle.PauseClassifiedIff | main/application/services/burn_cycle_service.cpp:24-34 | a pause counts as between sessions if and only if it lasts at least 600.5 s |
| BurnCycle.EveryRunPausesAddUp | main/application/services/burn_cycle_service.cpp:24-34 | in every run the total pause is the sum of its two parts, even wrapped |
| BurnCycle.TimeIsConserved | main/application/services/burn_cycle_service.cpp:12-46 | over every measurable run burn plus pause time is the time between first and last edge up to half a second per interval, and each burn and pause is counted once |
| BurnCycle.DroppedIffZeroTimestamp | main/application/services/burn_cycle_service.cpp:24-38 | an interval is not counted if and only if it starts at a zero of the 32-bit clock |
| DhwControl.PriorityIff | main/application/use_cases/boiler_poll_interactor.cpp:237-293 | after every evaluation priority holds if and only if hot water is enabled, the schedule allows it, the tank is above 5 degrees and below the setpoint, and it was heating already or is below the band |
| DhwControl.BitsSent | main/application/use_cases/boiler_poll_interactor.cpp:345-359 | the hot-water and second-circuit bits are sent together and only under priority and enabling; the heating bit follows its last command |
| DhwControl.OffTakesEffect | main/application/use_cases/system_config_interactor.cpp:87-92 | a command off, written or queued, keeps hot water out of the next byte, and turns it off for good unless it is written while an on-command is queued |
| DhwControl.OffStaysOff | main/application/use_cases/boiler_poll_interactor.cpp:345-393 | once turned off, over any events on either path and with or without answers, no byte enables hot water before it is commanded on |
| DhwControl.OnTakesEffect | main/application/use_cases/system_config_interactor.cpp:87-92 | a command on, written, takes effect with the next byte if and only if the tank asks for heat and no off-command is queued; queued, with the byte after an answer and not before |
| DhwControl.OnNeedsWriteOrAnswer | main/application/use_cases/boiler_poll_interactor.cpp:228-393 | an event turns the flag on if and only if it is a written on-command or an answer that takes a queued one over; before one happens no byte enables hot water |
| DhwControl.OnStaysOn | main/application/use_cases/boiler_poll_interactor.cpp:345-393 | once on and with no off-command queued, over any events on either path and with or without answers, the next byte enables hot water if and only if the tank asks for heat, until it is commanded off |
| DhwControl.HeatingFollowsCommands | main/application/use_cases/boiler_poll_interactor.cpp:345-393 | over any events on either path the next byte's heating bit carries the last command, if and only if that was not written while the opposite one was queued |
| DhwControl.HeatingFollowsWrites | main/application/use_cases/system_config_interactor.cpp:71-76 | with written commands only, as in the firmware, it always carries the last one |
| DhwControl.SwitchingNeedsSwing | main/application/services/dhw_hysteresis_service.cpp:3-12 | with effective band h, n switch-ons need a temperature travel of at least 2 h (n - 1) |
| DhwControl.BoilerPollInteractor.DoDhwHysteresis | main/application/use_cases/boiler_poll_interactor.cpp:228-294 | the latch with its schedule gate, on the fields |
| DhwControl.BoilerPollInteractor.BuildMasterByte | main/application/use_cases/boiler_poll_interactor.cpp:345-359 | the byte from fields and pending commands |
| DhwControl.BoilerPollInteractor.DoStatus | main/application/use_cases/boiler_poll_interactor.cpp:361-393 | pending commands move into the state when, and only when, the boiler has answered |
| DhwControl.BoilerPollInteractor.Execute | main/application/use_cases/boiler_poll_interactor.cpp:121-127 | the latch is evaluated before the byte is sent |
| Wifi.WifiNvsStore.LoadSettings | main/infrastructure/driven/wifi_nvs_store.cpp:15-103 | loading with all its refusals, over any content of flash |
| Wifi.WifiNvsStore.SaveSettings | main/infrastructure/driven/wifi_nvs_store.cpp:105-137 | the keys written and erased for each mode |
| Wifi.WifiNvsStore.EraseAll | main/infrastructure/driven/wifi_nvs_store.cpp:139-154 | all five keys are erased |
| Wifi.LoadsIff | main/infrastructure/driven/wifi_nvs_store.cpp:15-103 | settings load if and only if the mode is stored and the strings it needs fit 33 and 65 bytes, name and access point password not empty |
| Wifi.LoadsUpToZero | main/infrastructure/driven/wifi_nvs_store.cpp:15-27 | a loaded string is the stored bytes up to the first zero, cut to leave room for a terminator |
| Wifi.SaveLoad | main/infrastructure/driving/wifi_apsta_adapter.cpp:125-156 | settings that pass validation load back unchanged for their mode, over whatever flash held, and the failure count is untouched |
| Wifi.CheckSsid | main/domain/value_objects/wifi_validation.cpp:5-21 | the loop accepts exactly the names of 1 to 32 printable characters |
| Wifi.CheckPassword | main/domain/value_objects/wifi_validation.cpp:23-44 | accepts exactly the passwords of 8 to 63 characters |
| Wifi.IntegrityChecksAreRedundant | main/infrastructure/driving/wifi_apsta_adapter.cpp:41-53 | the boot's checks never fire |
| Wifi.BootByMode | main/infrastructure/driving/wifi_apsta_adapter.cpp:22-114 | from any content of flash: an access point with the stored password for mode 2, a station or a reboot for mode 1, an open access point otherwise and without a radio |
| Wifi.BootProgress | main/infrastructure/driving/wifi_apsta_adapter.cpp:22-106 | every boot that reboots brings the device strictly closer to resting |
| Wifi.AlwaysRests | main/infrastructure/driving/wifi_apsta_adapter.cpp:22-106 | from any content of flash and with any radio, the device rests within a bound that is at most 4 boots unless the stored count is 255, and rests as a station with count 0 |
| Wifi.BoundIsReached | main/infrastructure/driving/wifi_apsta_adapter.cpp:91-106 | when every connection fails, it takes exactly that many boots |
| Wifi.EveryLifeKeepsTheIntent | main/infrastructure/driving/wifi_apsta_adapter.cpp:22-171 | in every life of the device a boot loads exactly what was last validly saved, unless reset or given up after three failures without a success; the count is at most 2, so it rests within 4 boots |
| Wifi.EveryLifeRestsAsIntended | main/infrastructure/driving/wifi_apsta_adapter.cpp:22-114 | in every life, with a radio that starts, the device comes to rest as an open access point if there are no settings or the last attempt fails, as one with its password if those are set, and in the saved network if and only if one of the attempts left connects; without a radio as an open access point |
| Wifi.WifiApSta.BootDevice | main/infrastructure/driving/wifi_apsta_adapter.cpp:22-114 | a boot, on the store, the mode and the radio |
| Wifi.WifiApSta.BootStation | main/infrastructure/driving/wifi_apsta_adapter.cpp:75-106 | the station branch with its 8-bit count |
| Wifi.WifiApSta.SaveSettingsAndReboot | main/infrastructure/driving/wifi_apsta_adapter.cpp:125-161 | settings are saved if and only if they are valid |
| Wifi.WifiApSta.FactoryResetAndReboot | main/infrastructure/driving/wifi_apsta_adapter.cpp:163-171 | settings erased, count 0 |
| Mqtt.EncodeRemainingLength | main/infrastructure/driven/mqtt_socket_adapter.cpp:31-40 | the loop writes the encoding at its place and leaves what precedes it |
| Mqtt.DecodeEncode | main/infrastructure/driven/mqtt_socket_adapter.cpp:31-465 | both readers of the length recover every value and where it ends (MQTT 3.1.1, section 2.2.3) |
| Mqtt.EncodingIsMinimal | main/infrastructure/driven/mqtt_socket_adapter.cpp:31-40 | no well-formed encoding of the value is shorter, and four bytes suffice if and only if it is at most 268435455 |
| Mqtt.EncodedDigits | main/infrastructure/driven/mqtt_socket_adapter.cpp:31-40 | byte k carries digit k of the value to the base 128, and its top bit if and only if a byte follows |
| Mqtt.WriteString | main/infrastructure/driven/mqtt_socket_adapter.cpp:42-53 | two length bytes, high first, in numbers, then the string |
| Mqtt.BuildPublish | main/infrastructure/driven/mqtt_socket_adapter.cpp:264-281 | the bytes of a PUBLISH (MQTT 3.1.1, section 3.3) |
| Mqtt.PublishFields | main/infrastructure/driven/mqtt_socket_adapter.cpp:264-281 | a PUBLISH in numbers: type 3, quality of service 0, the retain bit, the length, the topic's length high byte first, topic and payload (MQTT 3.1.1, section 3.3) |
| Mqtt.ParsePublished | main/infrastructure/driven/mqtt_socket_adapter.cpp:464-492 | a PUBLISH received whole is parsed to its topic and payload, cut at 63 and 511 bytes |
| Mqtt.ParsedFields | main/infrastructure/driven/mqtt_socket_adapter.cpp:464-492 | any packet whose length field ends before p is parsed by the topic length 256 got[p] + got[p + 1], cut at 63 and 511 bytes, and to nothing if it is shorter than that |
| Mqtt.WaitsAsAnnouncedIff | main/infrastructure/driven/mqtt_socket_adapter.cpp:454-458 | the reader waits for the announced length if and only if it fits 31 bits, which every length field of up to four bytes does: longer ones wrap |
| Mqtt.TakenWholeIff | main/infrastructure/driven/mqtt_socket_adapter.cpp:438-459 | the exact condition on the pieces for a packet to be taken whole, for every length field |
| Mqtt.PrefixParsed | main/infrastructure/driven/mqtt_socket_adapter.cpp:464-492 | the first bytes of a packet are parsed to nothing before the payload starts, and after that to the message with as much of its payload as there is |
| Mqtt.PublishArrivesIff | main/infrastructure/driven/mqtt_socket_adapter.cpp:264-492 | what becomes of a PUBLISH that fits and comes alone, in any pieces, all of them in time or only the first: it is queued as sent if and only if the pieces in time bring the last byte that the queue takes, and its fixed header is not split or no piece ends between the byte to which the reader then waits and that one; otherwise it is queued with a truncated payload if that is so of the byte where the payload starts, or else lost |
| Mqtt.SplitHeaderLosesMessage | main/infrastructure/driven/mqtt_socket_adapter.cpp:454-465 | with the fixed header split, a message of 128 bytes is lost |
| Mqtt.SplitHeaderTruncatesMessage | main/infrastructure/driven/mqtt_socket_adapter.cpp:454-492 | and one of 255 is queued with its payload truncated, as if complete |
| Mqtt.Receiver.ReadPacket | main/infrastructure/driven/mqtt_socket_adapter.cpp:438-459 | the chunk loop |
| Mqtt.Receiver.LengthOf | main/infrastructure/driven/mqtt_socket_adapter.cpp:454-458 | the loop over the length bytes received so far, in signed 32-bit arithmetic |
| Mqtt.Receiver.Deliver | main/infrastructure/driven/mqtt_socket_adapter.cpp:464-492 | a parsed PUBLISH is queued, another is not |
| Mqtt.Receiver.Dispatch | main/infrastructure/driven/mqtt_socket_adapter.cpp:464-495 | what each packet type changes, and nothing else |

## Left out

- Floating point: all floats are reals; rounding, overflow and NaN are not modelled.
- GPIO, timer, semaphore, OneWire and socket calls: levels, times, tokens, slots and chunks are inputs; FreeRTOS tick rounding of delays is not modelled.
- The debug counters of the OpenTherm interrupts are unbounded, and the interrupt counter is left out.
- The first loop of a transaction, which waits for the idle state, and the logging after it.
- Calendar.CivilCountsDays: does not model the narrowing of the year to int, because callers pass 32-bit timestamps and a time zone.
- GasFlow.GasFlowService.Execute: does not model the gas flow itself (calorific value, power map, warm-up, the two input filters): the flow of an execution is an input, and its first call after a 32-bit clock reading of 0 is the same as after start-up.
- The gas service's reset: nothing in the firmware calls it.
- Failing flash writes, the freeze of writes during image verification, and power loss between two writes of one save or correction: each is atomic.
- GasHistory.ExecuteKeepsOrder: is about one execution; saves and reboots can bring an older day back, as GasHistory.EveryRunKeepsNewestDays states.
- GasCorrection.LoadLegacy: leaves out heads at which the index of the migration loop overflows or falls below zero, where C gives it no meaning.
- The temperatures, versions, bounds and counters that the boiler poll reads in turn, the handshake, the CH schedule and the report of a finished hot-water session.
- The boiler poll is one step: a write by another task between its latch, its byte and its answer is not modelled.
- DhwPrediction.DhwPredictService.Push: the square root of the hot-water prediction is an input; its rounding of times to float and the unused prior variance are left out.
- Access point start-up, DNS, scanning and the delays before a reboot.
- Mqtt.BuildPublish: requires the packet to fit the buffer; the code does not check it.
- MQTT CONNECT, SUBSCRIBE and PING packets, send retries, reconnect back-off, and several packets in one read: the parser does not separate them. The bytes that are left over or come late after a truncated or lost packet are not followed further.
- ModulationStats.StoreRoundTrip: histograms whose counter is not the sum of their bins are accepted by the loader; ModulationStats.LoadConsistentIff states when loading is safe.
- HTTP handlers, pages, SNTP, OTA, schedules, FOPDT estimation and PID quality scores, fault texts and the event log.
