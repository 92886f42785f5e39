# Verified model of the SEN66 air-quality firmware

The firmware reads a SEN66 sensor over I2C and publishes nine channels as Matter attributes. This project
models everything between the wire and the attribute table and proves what the stages guarantee together:
CRC-checked frames, the retry and notify policy, the mutex-guarded snapshot that a poll thread publishes, and
the attribute writes of the CHIP thread.

| file | contents |
|---|---|
| `Integers.dfy` | integer widths, truncating division |
| `Gf2.dfy` | polynomials over GF(2), division with remainder |
| `Crc.dfy` | the CRC-8 loop, its meaning as a division, its error detection |
| `Fields.dfy` | channels, 16-bit masks as channel sets |
| `Protocol.dfy` | frame and serial-number parsers, the encoders of the parser tests, round trips, damaged frames |
| `Driver.dfy`, `BusProtocol.dfy` | the driver's entry points, and any number of threads in them on one bus |
| `Policy.dfy`, `PolicyRuns.dfy`, `Pacing.dfy` | the policy object, what it guarantees over whole runs, and how fast it tries again |
| `AirQuality.dfy` | binary32 rounding and the air-quality classification |
| `ShellText.dfy` | the decimal texts of the shell |
| `Adapter.dfy` | attributes, null encodings, the rendering of a measurement |
| `Publication.dfy` | poll thread, CHIP thread and snapshot readers as interleaved atomic steps |
| `PublicationProofs.dfy`, `PublicationRuns.dfy` | safety, coming to rest, and refinement under every interleaving |
| `Freshness.dfy` | how old the attributes can be at rest |
| `SharedBus.dfy` | publication and bus together: the poll thread's ticks are calls on a bus that other threads share |
| `Outages.dfy` | what failing reads do to publications and attributes |
| `Service.dfy` | the measurement service as one thread runs it, and how its handler relates to the steps |
| `StepOrders.dfy` | runs that go wrong when two steps change places |

`dafny verify dfyconfig.toml` checks everything.

## How the model is built

Objects that the source updates in place are classes (`Policy`, `Service`, `I2cBus`, `MeasurementRef`,
`AttributeStore`)
whose methods are proved against a transition function on values; loops over buffers are loops over arrays or
byte sequences. `Policy` carries a ghost history of its calls and `Service` one of its ticks, and their
invariants say that the fields are what the whole history makes of them. The properties of runs are then lemmas
about the transition functions. Concurrency is a step function: an action that is not enabled changes nothing,
so a sequence of actions is an arbitrary interleaving, and a statement about all sequences is one about all
schedules.

Clock readings and what the bus does (errors and bytes) are inputs. No proof needs the clock to be monotone;
where time matters it is part of the statement.

Assumptions about the surroundings:

- memory is sequentially consistent, and the callback pointer is read and written atomically;
- `ScheduleWork` never fails, and the work queue is unbounded;
- the direct call of `ApplyLatestMeasurement` at air_quality_matter_adapter.cpp:171 is serialised with work items
  (lines 75-76 of that file say that the function only runs through `ScheduleWork`, which line 171 contradicts);
- the 64-bit millisecond clock does not overflow.

## Where the code and its documentation disagree

- src/measurement_service/measurement_policy.cpp:124-127 explains a silent branch by "nothing has ever been
  valid", and docs/measurement-service.md:73-78 describes a heartbeat without conditions. The branch also silences
  the heartbeat after an all-invalid snapshot was notified: `HeartbeatIff`, `AllInvalidIsSilent`,
  `SilenceIsReachable`.
- docs/measurement-service.md:73-78 says a channel must change by more than its threshold. In the code a change
  of exactly the threshold counts: `ThresholdIsInclusive`.
- docs/building.md:213-216 and docs/apple-home.md:155 expect null attributes after the sensor is disconnected. In
  the code an attribute is null in an outage exactly when its channel was invalid in the last successful read
  (`OutageFreezesAttributes`), and for every valid frame there is a run whose attributes stay those of the frame
  through any failing of the sensor (`DisconnectedIsNotNull`).
- A valid humidity of raw value -1 is written as 0xFFFF, which is the null encoding: `NullsAreInvalidChannels`.
- The escalation of the backoff follows its description for ever only if the failure threshold is at most
  2^32 - 4: `BackoffClosedFormIff`.
- The changed mask tells a subscriber everything about validity, but about values only when the threshold is at
  most one: `SubscriberHoldsValidity`, `MaskSufficesForValuesIff`.

## Model

| member | source | states |
|---|---|---|
| PublicationProofs.AttributesAreCurrent | src/air_quality_endpoint/air_quality_matter_adapter.cpp:81-134 | under every interleaving, once start-up is done and no tick or application is in flight, the attributes render a published measurement with the validity of the current snapshot, every valid channel within 2·(threshold − 1) of it |
| PublicationProofs.NullPatternIsCurrent | src/air_quality_endpoint/air_quality_matter_adapter.cpp:90-124 | in such a state each attribute is null exactly when the current snapshot's channel is invalid, with the one exception of a humidity of -1 |
| PublicationProofs.NoNotificationIsLost | src/measurement_service/measurement_service.cpp:71-82 | wherever registration falls among the poll thread's steps, a consumed notification is covered by an application finished or still to come, and at every later rest the attributes come from a snapshot at least as new |
| PublicationProofs.SnapshotsAreWhole | src/measurement_service/measurement_service.cpp:37-47 | what any thread gets from GetLatest was published as a whole, decodes the last good frame, and its age is publication time minus last successful read |
| Outages.OutageFreezesSnapshots | src/measurement_service/measurement_policy.cpp:70-83 | through any stretch of failed reads, whenever it begins, every snapshot published carries the measurement the policy had then, aged from the last successful read |
| Outages.OutageFreezesAttributes | src/measurement_service/measurement_policy.cpp:70-83 | from every reachable state, at every rest in such a stretch an attribute is null exactly when its channel was invalid in the last successful read (or is a humidity of -1), and the values are close to that read |
| Outages.OutageFromRest | src/measurement_service/measurement_service.cpp:66-83 | with nothing in flight at its beginning, an outage leaves every attribute as it was |
| Outages.DisconnectedIsNotNull | src/air_quality_endpoint/air_quality_matter_adapter.cpp:81-125 | for every configuration and frame with a valid channel, a run to a rest whose attributes are that frame's and stay so through every outage |
| PublicationProofs.AttributesComeFromAFrame | src/air_quality_endpoint/air_quality_matter_adapter.cpp:81-125 | at rest, once a valid frame was published, the attributes are those of one CRC-clean frame that the bus really delivered |
| PublicationProofs.AlwaysInv | src/measurement_service/measurement_service.cpp:37-86 | every reachable state keeps mutual exclusion, whole copies, honest ages, closeness to the last notification, coverage and the rendered store |
| PublicationProofs.KeepsCovered | src/air_quality_endpoint/air_quality_matter_adapter.cpp:167-171 | every step keeps every consumed notification covered by an application finished or still to come |
| PublicationProofs.KeepsReported | src/measurement_service/measurement_service.cpp:69-76 | every step keeps the publications since the last notification within the dead band of it |
| StepOrders.LateRegistrationLosesAnUpdate | src/air_quality_endpoint/air_quality_matter_adapter.cpp:167-171 | were the callback registered after the first application, every first valid frame could be notified in between and leave all attributes null at rest |
| StepOrders.EarlyNotificationLosesAnUpdate | src/measurement_service/measurement_service.cpp:71-83 | were the handler to notify before it publishes, the application could come too early and leave all attributes null at rest |
| PublicationRuns.AttributesCatchUp | src/measurement_service/measurement_service.cpp:71-86 | from every reachable state a bounded number of steps without a tick leads to rest, where the attributes show the current snapshot to within the thresholds: there is no deadlock |
| PublicationRuns.StepsAreBounded | src/measurement_service/measurement_service.cpp:37-86 | in any schedule without a new tick, the enabled steps of the two threads and the work left over are at most the work at the beginning |
| PublicationRuns.InterleavingsRunTheTicks | src/measurement_service/measurement_service.cpp:49-86 | however the threads interleave, the policy is in the state that its ticks produce one after the other |
| PublicationRuns.PublicationsAreDated | src/measurement_service/measurement_service.cpp:37-47 | the two times whose difference is the age of a publication are the time of the last tick performed and that of the last successful read among the ticks |
| Freshness.AttributesAreFresh | src/measurement_service/measurement_service.cpp:66-83 | on a monotone clock, along audible reads at most P apart, the attributes at rest render a read at most max(interval − 1, 0) older than the last successful one |
| SharedBus.AttributesAnswerOwnCommand | src/measurement_service/measurement_service.cpp:52-66 | while any number of threads share the bus, at rest the attributes render an intact reply that the sensor produced for the poll thread's own read command |
| SharedBus.TicksHearTheAnswer | src/measurement_service/measurement_service.cpp:60-66 | what a tick feeds to the policy is what the driver answered, a measurement or a failure |
| SharedBus.RunsHaveParts | src/sen66/sen66_driver.cpp:71-151 | a run of both together is a run of the bus and a run of the publication, so the theorems about either hold of it |
| SharedBus.RestartComesFirst | src/measurement_service/measurement_service.cpp:52-64 | in backoff a tick first sends the start command, reads only after that has worked, and counts as failed otherwise |
| SharedBus.AlwaysApart | src/sen66/sen66_driver.cpp:24-40 | no call of another thread is ever taken for one of the poll thread's, whose own are reads, and restarts in backoff, and nothing else |
| SharedBus.SharedRunExists | src/measurement_service/measurement_service.cpp:49-86 | for every frame with a valid channel such a run reaches rest with the attributes of that frame |
| ServiceSteps.StepsAreTheHandler | src/measurement_service/measurement_service.cpp:49-86 | the atomic steps of a tick, undisturbed, have the effect that the handler is proved to have |
| MeasurementService.Service.constructor | src/measurement_service/measurement_service.cpp:90-110 | start-up feeds a failed start-measurement into the policy as a failed read |
| MeasurementService.Service.PublishSnapshot | src/measurement_service/measurement_service.cpp:37-47 | the snapshot becomes the policy's latest measurement with its age, or the empty snapshot |
| MeasurementService.Service.Notify | src/measurement_service/measurement_service.cpp:73-83 | a wanted notification is consumed and delivered with the mask it had before being consumed, to a registered subscriber only |
| MeasurementService.Service.PollWorkHandler | src/measurement_service/measurement_service.cpp:49-86 | restart command iff in backoff and no read after a failed one, policy advanced by the tick, snapshot of the state before the mark, one callback iff registered and wanted, delay of the new state; delays and restarts add up to the totals of the run |
| MeasurementService.HandlerWrites | src/measurement_service/measurement_service.cpp:52-64 | a tick writes the start command 0021 once iff a restart is due, the read command 0300 once unless that restart failed, and never the stop command |
| MeasurementService.StartsStillMatch | src/measurement_service/measurement_service.cpp:52-58 | over every run the record of the bus holds one start command for start-up and one for every restart of the run, and no stop command |
| MeasurementService.Service.GetLatest | src/measurement_service/measurement_service.cpp:112-117 | true iff some read so far had a valid channel; then the last successful read, aged up to the last tick, and otherwise the empty snapshot |
| MeasurementPolicy.Policy.OnReadResult | src/measurement_service/measurement_policy.cpp:66-98 | the fields stay what the whole history of calls makes of them |
| MeasurementPolicy.Policy.EvaluateNotify | src/measurement_service/measurement_policy.cpp:123-139 | notify iff something is or was valid and a channel changed or the interval elapsed; the mask is the exact set of changes |
| MeasurementPolicy.Policy.GetLatest | src/measurement_service/measurement_policy.cpp:100-107 | a reading iff some successful read of the history had a valid channel; then the last successful read and the time since it |
| MeasurementPolicy.HistoryIsRemembered | src/measurement_service/measurement_policy.cpp:91-95 | after any history the latest measurement, its time and the ever-valid flag are those of the reads in it |
| MeasurementPolicy.MarksAreRemembered | src/measurement_service/measurement_policy.cpp:109-114 | after any history the last notified measurement is the latest one at the last mark, and its time that of the mark |
| MeasurementPolicy.PendingIff | src/measurement_service/measurement_policy.cpp:66-98 | after any history a notification is pending iff its last call was a successful read with something valid in it or in the last notified measurement, which differs from that or comes the whole interval after it |
| MeasurementPolicy.DefaultSchedule | src/measurement_service/measurement_policy.h:20-36 | the default pacing, interval and thresholds in numbers |
| PolicyRuns.TicksAreCalls | src/measurement_service/measurement_service.cpp:66-76 | a run of ticks is the history of its reads and marks, so what holds after every history of calls holds after every run |
| PolicyRuns.TicksAreRemembered | src/measurement_service/measurement_service.cpp:66-76 | after any run the latest measurement, its time and the ever-valid flag are those of the reads in it |
| MeasurementPolicy.Policy.MarkNotified | src/measurement_service/measurement_policy.cpp:109-114 | the latest measurement becomes the reference and the pending notification is consumed |
| MeasurementPolicy.Policy.NextDelayMs | src/measurement_service/measurement_policy.cpp:116-121 | after any history the delay is the closed form of the number of trailing failures |
| MeasurementPolicy.Policy.NeedsRestart | src/measurement_service/measurement_policy.h:73-75 | after any history a restart is due iff the trailing failures reach the threshold (at least one) |
| MeasurementPolicy.DeltaMask | src/measurement_service/measurement_policy.cpp:23-60 | for each of the nine channels: in the mask iff valid in both snapshots and its own value moved by at least its own threshold |
| MeasurementPolicy.HistoryInStep | src/measurement_service/measurement_policy.cpp:70-89 | after any history, wraps of the 32-bit counter included, counter, flag and step are the closed form's |
| Pacing.BackoffClosedFormIff | src/measurement_service/measurement_policy.cpp:70-83 | from a recovered state the machine follows the closed form through every outage iff the threshold is at most 2^32 − 4 |
| Pacing.OutagePacing | src/measurement_service/measurement_service.cpp:52-85 | after any run that ends in a successful read, n failed ticks add min(n, F−1)·poll and then b0, b1, b2, b3, b3, … to the waits the handler schedules, and exactly max(n−F, 0) to its restarts |
| Pacing.AttemptBound | src/measurement_service/measurement_service.cpp:85-85 | the waits between the attempts of an outage fit into its length, so their number is bounded |
| PolicyRuns.AlwaysDeliverable | src/measurement_service/measurement_service.cpp:73-83 | for every sequence of reads and marks, a wanted notification has a snapshot to deliver, so the inner guard drops none |
| PolicyRuns.DeadBandAlways | src/measurement_service/measurement_policy.cpp:123-139 | after every tick of every run the last notified measurement is the latest or within every threshold of it, with the same validity |
| PolicyRuns.NoChangesIffQuiet | src/measurement_service/measurement_policy.cpp:129-130 | the mask is empty iff validity agrees and every valid channel is within its threshold |
| PolicyRuns.PendingMaskExact | src/measurement_service/measurement_policy.cpp:123-139 | after any history a channel is in the changed mask iff a notification is pending and its validity differs between the latest and the last notified measurement or its value by at least the threshold |
| PolicyRuns.ThresholdIsInclusive | src/measurement_service/measurement_policy.cpp:28-58 | a move by exactly the threshold is named, one less is not |
| PolicyRuns.UpdateIsExact | src/measurement_service/measurement_service.cpp:73-82 | a tick calls a registered subscriber at most once, and nobody else, with the read just made and exactly the channels in which it differs from the last notified one |
| PolicyRuns.SubscriberHoldsValidity | src/measurement_service/measurement_policy.h:62-65 | a subscriber that copies only the validity bits that its calls name always holds the validity of the last notified snapshot |
| PolicyRuns.MaskSufficesForValuesIff | src/measurement_service/measurement_policy.h:62-65 | one that copies only masked values always holds the last notified value of a channel iff its threshold is at most one |
| PolicyRuns.HeartbeatSpacing | src/measurement_service/measurement_policy.cpp:132-138 | a notification with an empty mask comes at least the interval after the one before |
| PolicyRuns.HeartbeatIff | src/measurement_service/measurement_policy.cpp:124-138 | with the interval elapsed, a successful read notifies iff it or the last notified snapshot has a valid channel |
| PolicyRuns.NotificationGap | src/measurement_service/measurement_policy.cpp:123-138 | from any state, after a silent stretch of audible reads at most P apart, the next read comes at most max(interval − 1, 0) + P after the last notification and notifies once the interval has elapsed |
| PolicyRuns.NotificationSpacing | src/measurement_service/measurement_policy.cpp:123-138 | over whole runs of such reads consecutive notifications are at most max(interval − 1, 0) + P apart, and no read after the last one should have notified |
| PolicyRuns.AllInvalidIsSilent | src/measurement_service/measurement_policy.cpp:124-127 | after an all-invalid notification, all-invalid reads and failures are silent for ever |
| PolicyRuns.SilenceIsReachable | src/measurement_service/measurement_policy.cpp:124-127 | such a state follows a valid read and the loss of every channel |
| Sen66Crc.Crc | src/sen66/sen66_crc.cpp:14-29 | the nested loops compute the byte-wise shift register |
| Sen66Crc.CrcFromIsFeed | src/sen66/sen66_crc.cpp:17-26 | the byte-wise register equals one that takes the message bit by bit |
| Sen66Crc.CrcIsRemainder | src/sen66/sen66_crc.cpp:14-29 | a byte is the CRC iff it is the remainder of (data with its first eight bits flipped) · x^8 modulo x^8 + x^5 + x^4 + 1, for data of any length |
| Sen66Crc.DatasheetVector | tests/sen66/src/test_crc.cpp:11-15 | the CRC of BE EF is 92 |
| Sen66Crc.FeedLinear | src/sen66/sen66_crc.cpp:17-26 | the register is linear over exclusive or |
| Sen66Crc.AppendedCrcIsAccepted | src/sen66/sen66_crc.cpp:14-29 | data followed by its CRC has CRC zero and is accepted |
| Sen66Crc.UndetectedIffDivisible | src/sen66/sen66_protocol.cpp:19-27 | an error on an accepted codeword goes unnoticed iff the generator divides the error pattern |
| Sen66Crc.CrcParity | src/sen66/sen66_crc.cpp:14-29 | the CRC has the bit parity of the data |
| Sen66Crc.DetectsBurstsAndOddErrors | src/sen66/sen66_protocol.cpp:19-27 | in a codeword of any length every burst of up to eight bits and every odd error is detected |
| Sen66Crc.DetectsUpToThreeFlips | src/sen66/sen66_protocol.cpp:19-27 | in a three-byte word every one, two or three flipped bits are detected |
| Sen66Protocol.DamagedFrameIsRejected | src/sen66/sen66_protocol.cpp:19-32 | hence a frame of any number of words with such damage, even a burst across two words, is rejected |
| Sen66Protocol.CheckWordsCrc | src/sen66/sen66_protocol.cpp:19-27 | true iff every word carries its CRC |
| Sen66Protocol.WordIsShiftAndOr | src/sen66/sen66_protocol.cpp:13-15 | the arithmetic word is the shift-and-or of the source |
| Sen66Protocol.ParseMeasurement | src/sen66/sen66_protocol.cpp:29-84 | accepts iff every CRC fits, then decodes every field and validity bit; a rejected frame leaves the output as it was |
| Sen66Protocol.ParseSerialNumber | src/sen66/sen66_protocol.cpp:86-102 | accepts iff every CRC fits, then yields the payload bytes and a terminator; otherwise the buffer is untouched |
| Sen66Protocol.ChannelOfFrame | src/sen66/sen66_protocol.cpp:34-81 | each channel is the value of its two payload bytes, in two's complement where signed, and invalid only for the bytes of its sentinel |
| Sen66Protocol.FieldsOfFrame | src/sen66/sen66_protocol.cpp:34-81 | field by field: at which bytes of a frame each value stands, in which signedness, and which word makes it invalid |
| Sen66Protocol.PayloadAt | src/sen66/sen66_protocol.cpp:92-96 | the two payload bytes of word k, high byte first, are characters 2k and 2k + 1 of the serial number |
| Sen66Protocol.PutWord | tests/sen66/src/test_parser.cpp:20-24 | writes one encoded word and nothing else |
| Sen66Protocol.BuildFrame | tests/sen66/src/test_parser.cpp:26-30 | fills the buffer with the encoding of the words |
| Sen66Protocol.BuildSerial | tests/sen66/src/test_parser.cpp:45-53 | fills the buffer with the encoding of the text, padded or cut to 32 characters |
| Sen66Protocol.DecodeOfEncode | src/sen66/sen66_protocol.cpp:29-42 | every encoded sequence of words passes and decodes to itself |
| Sen66Protocol.EncodeOfDecode | src/sen66/sen66_protocol.cpp:19-42 | a frame passes iff encoding its words gives it back byte for byte |
| Sen66Protocol.MeasurementRoundTrip | src/sen66/sen66_protocol.cpp:29-84 | encoding the fields of an accepted frame gives it back, CRCs included |
| Sen66Protocol.SerialRoundTrip | src/sen66/sen66_protocol.cpp:86-102 | the serial number read back as a C string is the text that was encoded |
| Sen66Fields.WordOperations | src/sen66/sen66_protocol.h:40-50 | bit by bit, or, and, exclusive or of the 16-bit masks are union, intersection and symmetric difference of channel sets |
| Sen66Fields.WordTests | src/sen66/sen66_protocol.h:40-50 | masking a word with a field's constant tests membership of that channel |
| Sen66Fields.WordInjective | src/sen66/sen66_protocol.h:40-50 | different channel sets are different words, so only the empty set is zero |
| Sen66Driver.I2cBus.ReadMeasurement | src/sen66/sen66_driver.cpp:132-151 | on the bus: lock, command bytes, execution time, fetch, unlock, ending early on an error; the first error wins, success iff the reply decodes, and otherwise the output is untouched |
| Sen66Driver.I2cBus.ReadSerialNumber | src/sen66/sen66_driver.cpp:71-90 | the same for the serial number and its buffer |
| Sen66Driver.I2cBus.IsDataReady | src/sen66/sen66_driver.cpp:112-130 | the same exchange; true iff both transfers succeed, the CRC fits and the low byte is one |
| Sen66Driver.I2cBus.StartOrStop | src/sen66/sen66_driver.cpp:92-110 | lock, command bytes, the command's own execution time unless the write failed, unlock; the error of the write |
| Sen66Driver.RecordsAreInOrder | src/sen66/sen66_driver.cpp:34-151 | after any sequence of calls, however the bus failed: locks and unlocks alternate and end unlocked, every transfer is under the lock, every taken command is followed by its own execution time, and every fetch follows that with its command's length |
| Sen66Driver.ExchangesInFull | src/sen66/sen66_driver.cpp:46-151 | the bytes, milliseconds and reply lengths of every exchange in numbers |
| Sen66Driver.FailedExchange | src/sen66/sen66_driver.cpp:71-76 | a command that the bus fails to write ends its exchange, without a wait or a fetch |
| Sen66Driver.ReadyWord | src/sen66/sen66_driver.cpp:128-129 | a reply that encodes the word 1 means ready, one that encodes 0 does not |
| Sen66Driver.CommandBytesInjective | src/sen66/sen66_driver.cpp:50-54 | the big-endian command bytes tell the commands apart |
| BusProtocol.CallIsTheEntryPoint | src/sen66/sen66_driver.cpp:71-151 | the steps of a call, undisturbed, free the mutex and give the answer of the entry point |
| BusProtocol.RepliesAreOwn | src/sen66/sen66_driver.cpp:71-151 | for any number of threads and any interleaving, every reply read was produced by the reader's own command, which directly precedes it and is the only one of its call |
| BusProtocol.MeasurementsAreOwn | src/sen66/sen66_driver.cpp:132-151 | a measurement that a call returns was decoded from an intact reply to that very call |
| BusProtocol.MutualExclusion | src/sen66/sen66_driver.cpp:32-40 | at most one thread is between lock and unlock |
| BusProtocol.MutexIsNeeded | src/sen66/sen66_driver.cpp:24-31 | without the mutex one caller reads the reply to another's command |
| AirQualityPolicy.Co2ClassificationExact | src/air_quality_endpoint/air_quality_policy.cpp:30-47 | the float classification of CO2 is the integer one for every raw value |
| AirQualityPolicy.Pm2p5ClassificationExact | src/air_quality_endpoint/air_quality_policy.cpp:30-47 | the same for PM2.5, whose breakpoints are not binary fractions |
| AirQualityPolicy.Pm10ClassificationExact | src/air_quality_endpoint/air_quality_policy.cpp:30-47 | the same for PM10 |
| AirQualityPolicy.LevelsOfRawValues | src/air_quality_endpoint/air_quality_policy.h:45-60 | the level of every raw value of each channel by name, with the breakpoints as whole raw units |
| AirQualityPolicy.LevelCodes | src/air_quality_endpoint/air_quality_policy.h:18-26 | the numbers of the levels |
| AirQualityPolicy.EvaluateAirQuality | src/air_quality_endpoint/air_quality_policy.cpp:49-72 | the level is that of one valid channel and no better than that of any, by raw values; unknown without one |
| AirQualityPolicy.WorstRankProperties | src/air_quality_endpoint/air_quality_policy.h:81-85 | monotone in every reading, blind to invalid ones, unknown iff none is valid |
| AirQualityPolicy.TemperatureRawToCentiDegC | src/air_quality_endpoint/air_quality_policy.cpp:19-22 | half the raw value, truncated toward zero, and never the null encoding |
| Binary32.TenthsCompare | src/air_quality_endpoint/air_quality_policy.cpp:15-17 | for 16-bit numerators, correctly rounded quotients by ten compare like the numerators |
| Binary32.FlExact | src/air_quality_endpoint/air_quality_policy.cpp:11-17 | 16-bit integers convert exactly |
| Binary32.FlIsNearest | src/air_quality_endpoint/air_quality_policy.cpp:11-17 | the model's rounding is to the nearest binary32 value, ties to even |
| ShellText.PrintSignedFixed | src/sen66/sen66_shell.cpp:35-48 | the text is sign, magnitude quotient, point and padded magnitude remainder |
| ShellText.PrintUnsignedTenth | src/sen66/sen66_shell.cpp:29-32 | the same for an unsigned value in tenths |
| ShellText.PrintedTextIsExact | src/sen66/sen66_shell.cpp:35-48 | reading the text as a decimal gives back exactly the scaled value, also strictly between -1 and 0 |
| ShellText.ExactIffResolution | src/sen66/sen66_shell.cpp:35-48 | the text denotes the value for every 32-bit input iff the resolution is 1, 10 or 100 |
| ShellText.TextShape | src/sen66/sen66_shell.cpp:37-46 | a minus sign leads exactly the negative values, those printed with whole part zero included, and no zero leads a longer whole part |
| ShellText.SomeTexts | src/sen66/sen66_shell.cpp:37-46 | four texts in full |
| ShellText.PrintingIsInjective | src/sen66/sen66_shell.cpp:35-48 | at one resolution two values print alike iff they are equal |
| MatterAdapter.AttributeStore.ApplyLatestMeasurement | src/air_quality_endpoint/air_quality_matter_adapter.cpp:81-125 | every attribute becomes the rendering of the snapshot, or none changes before the first valid frame |
| MatterAdapter.NullsAreInvalidChannels | src/air_quality_endpoint/air_quality_matter_adapter.cpp:88-113 | each rendered attribute is null iff its channel is invalid, or is a humidity of -1 |
| MatterAdapter.WireToAttributes | src/air_quality_endpoint/air_quality_matter_adapter.cpp:86-124 | from frame words to attributes: null iff the word is the sentinel (or humidity 0xFFFF), the air quality unknown iff all three of its words are, and no sentinel is classified |
| MatterAdapter.AttributesOfFrame | src/air_quality_endpoint/air_quality_matter_adapter.cpp:86-124 | each attribute's value from its own word of the frame: half the temperature toward zero on both endpoints, humidity as it is, CO2 exactly, particulates in tenths to within 2^-9, and the worst of three levels |

## Left out

- Zephyr, I2C, logging, sleeps: replaced by error results, clock readings and an abstract mutex and work queue.
- Matter internals: attribute tables, cluster initialisation, subscriptions, fabrics; only the written values remain.
- What the attribute layer does with a value that equals a null encoding, and no-op writes of unchanged values.
- Generated data, board and build configuration, start-up plumbing in src/app_task.cpp and src/main.cpp.
- Shell command registration and the data-ready loop of `CmdRead`; labels, padding and units of printed lines.
- Weak memory effects and real-time scheduling: any interleaving of sequentially consistent steps is considered.
- The upper seven bits of a 16-bit mask, which no code sets: masks are sets of the nine channels.
- Pointers and buffers of the parsers: input buffers are byte sequences of the lengths that callers provide.
- AirQualityPolicy.EvaluateAirQuality: binary32 is modelled for magnitudes below 2^24, which covers every value that occurs.
- Pacing.OutagePacing: for a failure threshold above 2^32 - 4 only outages shorter than 2^32 ticks, after which the counter's wrap delays the escalation.
- Pacing.AttemptBound: the same restriction for such thresholds.
- ShellText.PrintSignedFixed: a resolution of zero, which divides by zero, and negative ones, which mean nothing.
- Sen66Driver.I2cBus.ReadMeasurement: what the bus returns is an input; other threads on it are in BusProtocol and SharedBus.
