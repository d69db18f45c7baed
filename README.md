# Job scheduler of the device-monitoring microservice, in Dafny

The device-monitoring microservice runs health and status checks ("jobs") on
networked AV room devices and publishes what they observe as events on a
message bus. This project models the job scheduler in `jobs/jobs.go`, with the
goroutines, timers and channels reduced to sequential steps over integer time:

- **Runner construction** (`init`): from an already-decoded list of job configs
  and the job registry, either a fatal failure or the ordered list of runners
  `(Job, Config, Trigger, TriggerIndex)`. The match regex is built for every
  trigger whose type equals "match" up to case (module `RunnerInit`).
- **Partition by trigger type** (`StartJobScheduler`): the exact-string switch
  sends each runner to the daily loops, the interval loops, the ordered list of
  match runners, or drops it (module `Dispatch`).
- **Match fan-out**: for each event a worker takes from the channel, every
  match runner whose test holds is started once, in list order (`Dispatch.FanOut`).
- **Inbound pipeline** (`readEvents` and the workers): a bounded FIFO channel of
  capacity 300. A failed read queues nothing. A reader whose send finds the
  channel full blocks, holding its event (class `EventPipeline.Pipeline`).
- **Daily and interval timing** (`runDaily`, `runInterval`): the RFC 3339
  `full-time` of `At` (section 5.6 of RFC 3339), its conversion to UTC, the
  first delay, the 24-hour re-arm after each run, and the ticker cadence
  (modules `FullTime`, `TimedLoops`). Time is an integer number of
  nanoseconds, the unit of Go's `time.Duration`.
- **Result forwarding** (`run`): the job's events go through a result channel
  of capacity 100. A forwarder publishes each one with the `APISuccess` cause,
  and the channel is closed after the job returns (module `Execution`). This is
  modelled as a trace of send, publish and close actions.

Collaborators the scheduler only calls are parameters:
- the event test of a match runner, `matches`;
- Go's `time.ParseDuration`, `parseDuration`;
- the events a job emits, `emitted`;
- how long each run takes, `durations`;
- the current time, `now`, and how far the process's local zone is east of UTC, `localOffset`;
- the results of bus reads, `ReadResult`;
- how the forwarder interleaves with the job, `drains`.

Behaviour of jobs/jobs.go that is easy to misread; the model follows the code:

- A daily runner re-arms its 24-hour timer only after `run` returns (jobs/jobs.go:189-194). Consecutive starts are therefore one day plus the previous run's duration apart, not on a flat 24-hour grid (`TimedLoops.DailyDrift`).
- A malformed trigger is not dropped at construction. Every trigger of an enabled config becomes a runner. An unknown type is dropped by the partition. An unparseable `At` or `Every` makes that runner's loop return before its first run.
- An `At` with no offset, such as "00:00:00", is not an RFC 3339 `full-time`. A daily runner configured that way never runs (`TimedLoops.NoOffsetRejected`).
- The ticker's channel holds one missed tick. After a run longer than the period, the next run starts as soon as the previous one returns. Two starts can then be closer together than one period (`TimedLoops.IntervalLateTick`). There is still never more than one run per tick (`TimedLoops.IntervalAtMostOnePerTick`).
- A duration that parses to zero or less makes `time.NewTicker` panic. This ends the process (`LoopOutcome.Crashed`).
- The `queue := 100` in `StartJobScheduler` is only logged. The inbound channel's capacity is 300 (`EventPipeline.ChannelCapacity`).

## Model

| member | source | states |
|---|---|---|
| JobTypes.EqualFold | jobs/jobs.go:71 | Two strings are equal up to case exactly when their lower-cased forms are equal; equal strings always are. |
| RunnerInit.MakeRunner | jobs/jobs.go:63-73 | The runner is bound to its job and config, names its own trigger by that trigger's index, and has a match regex exactly when the trigger type equals "match" up to case. |
| RunnerInit.Init | jobs/jobs.go:50-79 | Construction fails exactly when some enabled config names a job missing from the registry; otherwise it yields the runner list `AllRunners`. |
| RunnerInit.AllRunnersCount | jobs/jobs.go:61-77 | The number of runners is the total trigger count of the enabled configs. |
| RunnerInit.AllRunnersAt | jobs/jobs.go:61-77 | Trigger `i` of enabled config `k` is the runner at (triggers of earlier enabled configs) + `i`: config order, then trigger order. It carries that config, that trigger, index `i`, the registry's job, and a regex exactly when its type equals "match" up to case. |
| RunnerInit.AllRunnersSound | jobs/jobs.go:57-76 | Every runner belongs to an enabled config of the list whose job is registered, is bound to that job, and names one of the config's triggers by its index. |
| RunnerInit.DisabledConfigsIgnored | jobs/jobs.go:51-59 | Disabled configs never cause failure and add no runners: dropping them changes neither the verdict nor the list. |
| Dispatch.Classify | jobs/jobs.go:100-109 | The type goes to the daily, interval or match group exactly when it equals "daily", "interval" or "match" (case-sensitive). |
| Dispatch.Partition | jobs/jobs.go:98-110 | The four groups are the runners of each kind, each group in list order. |
| Dispatch.SelectMembers | jobs/jobs.go:99-110 | A runner is in the group of a kind exactly when it is in the list and its type classifies as that kind. |
| Dispatch.PartitionIsExact | jobs/jobs.go:99-110 | The groups split the runner list: together they hold each runner as many times as the list does. |
| Dispatch.MatchCaseVariantDropped | jobs/jobs.go:71-108 | A trigger typed "Match", or any other case variant of "match", gets its regex built but its runner is dropped, not listed for matching. |
| Dispatch.FanOut | jobs/jobs.go:125-130 | For one event, the started positions are exactly the match runners whose test holds, each once, in list order. |
| Dispatch.StartsAreDetermined | jobs/jobs.go:126-130 | Two fan-outs of one event over one list start the same runners in the same order. |
| FullTime.Parse | jobs/jobs.go:169-170 | Only valid full-times come out: hour below 24, minute and second below 60 (no leap second), an all-digit fraction, and an offset below 24:00. With ParseFormat and FormatParse, it is exactly the inverse of Format. |
| FullTime.ParseFormat | jobs/jobs.go:169-170 | Every valid full-time clock's RFC 3339 text parses back to that clock. |
| FullTime.FormatParse | jobs/jobs.go:169-175 | Any text that parses is a valid clock's exact RFC 3339 text: the parser accepts nothing but full-times. |
| FullTime.ParseAtFormat | jobs/jobs.go:169-171 | The daily target read from a clock's text is that clock's UTC second of the day. |
| FullTime.UtcShiftsBack | jobs/jobs.go:171 | Converting to UTC loses nothing: shifting the UTC time of day back by the offset gives the written local time of day. |
| FullTime.ParseAt | jobs/jobs.go:169-175 | A parsed daily target is a second of the day, below 86400. |
| FullTime.FirstDelay | jobs/jobs.go:180-184 | With now in UTC, the first delay is below one day, and now plus the delay falls on the target UTC time of day. |
| FullTime.FirstDelayUnique | jobs/jobs.go:180-184 | No other delay below a day lands on the target, so the first fire is the next occurrence at or after now. |
| FullTime.FirstDelayAsWritten | jobs/jobs.go:180-184 | The code's delay for a process in any local zone. It always lands on the target UTC time of day, but not necessarily within the next day (see AsWrittenWrongOutsideUtc). |
| FullTime.AsWrittenAgreesInUtc | jobs/jobs.go:180-184 | When the process's local zone is UTC, the code's delay equals the intended one. |
| FullTime.AsWrittenWrongOutsideUtc | jobs/jobs.go:180-184 | Outside UTC the code's delay can be negative (a run at the wrong time) or longer than a day (a run a day late). |
| TimedLoops.TimerFire | jobs/jobs.go:187 | A timer fires no earlier than when it is armed; a non-negative delay fires exactly that long after. |
| TimedLoops.RunDaily | jobs/jobs.go:168-195 | An unparseable `At` stops the loop with no run. Otherwise the runs are the daily schedule from the timer's fire time, armed with the code's own delay for the process's local zone. In a UTC process that fire time is now plus the corrected first delay. |
| TimedLoops.DailyLoop | jobs/jobs.go:187-194 | The timer loop makes exactly the daily schedule from its first fire time. |
| TimedLoops.DailySpacing | jobs/jobs.go:189-194 | Each run lasts its duration and the next starts one day after it ended: no overlap, starts at least a day apart. |
| TimedLoops.DailyDrift | jobs/jobs.go:189-194 | Run `i` starts `i` days plus all earlier run durations after the first run. |
| TimedLoops.DailyFirstRunAtTarget | jobs/jobs.go:180-191 | The first run comes at or after now, within a day, at the target's UTC time of day. |
| TimedLoops.MidnightExample | jobs/jobs.go:180-184 | At 2024-01-01T23:00:00Z a midnight target first fires at 2024-01-02T00:00:00Z. |
| TimedLoops.NoOffsetRejected | jobs/jobs.go:169-175 | "00:00:00", with no offset, is not accepted as a daily time. |
| TimedLoops.NextTick | jobs/jobs.go:206-207 | The next tick is a multiple of the period, strictly after the given time and at most one period after it. |
| TimedLoops.RunInterval | jobs/jobs.go:197-209 | A parse error stops the loop with no run. A non-positive period crashes. Otherwise the runs are the ticker schedule, first at one period. |
| TimedLoops.IntervalShape | jobs/jobs.go:206-209 | Each run lasts its duration. The next starts no earlier than this one ended, and either on a tick or exactly at that end. Run `i` starts no earlier than tick `c + i`. |
| TimedLoops.IntervalAtMostOnePerTick | jobs/jobs.go:206-209 | Run `i` starts no earlier than tick `i + 1`: no run at loop start, at most one run per tick. |
| TimedLoops.IntervalOnGridWhenFast | jobs/jobs.go:206-209 | When every run is shorter than the period, run `i` starts exactly at tick `k + i`. |
| TimedLoops.IntervalLateTick | jobs/jobs.go:206-209 | With period 100 and runs of 150, 10 and 0, the runs start at 100, 250 and 300: a missed tick is delivered when the long run returns. |
| EventPipeline.Pipeline.constructor | jobs/jobs.go:98-113 | The pipeline starts with an empty channel, no blocked reader and no launches, over the given match list and test. |
| EventPipeline.Pipeline.ReadOnce | jobs/jobs.go:139-148 | A failed read changes no queue. A read event joins the back of the channel when there is room; otherwise the reader blocks holding it. The FIFO and capacity invariant holds throughout. |
| EventPipeline.Pipeline.WorkerStep | jobs/jobs.go:123-130 | A worker takes the oldest event, starts exactly the matching runners in list order, records those launches, and lets a blocked reader's event in. On an empty channel nothing changes. |
| EventPipeline.SuccessfulAppend | jobs/jobs.go:139-148 | The events of a run of reads are the events of each part, in order. |
| EventPipeline.SuccessfulMembers | jobs/jobs.go:139-148 | Each event reaches the channel as many times as it was read successfully; failed reads add nothing. |
| Execution.RunJob | jobs/jobs.go:151-166 | Every emitted event is sent and published exactly once, in emission order, each with `APISuccess`. The channel is closed once, after the last send. The forwarder never runs ahead and the channel never holds more than 100. |
| Execution.JobSends | jobs/jobs.go:154-162 | While the job runs, the sends are exactly the emitted events and the channel is not closed. |
| Execution.SendOne | jobs/jobs.go:162 | One send appends its event to what was sent, after any publications needed to make room. |
| Execution.DrainSome | jobs/jobs.go:155-160 | The forwarder's publications before a send leave room in the channel and send nothing. |
| Execution.DrainAll | jobs/jobs.go:155-163 | After the close, the forwarder publishes everything left, so the publications equal the sends. |
| Execution.Forward | jobs/jobs.go:156-158 | One publication takes the oldest waiting event, with `APISuccess`. |

## Findings

| source | as written | input that shows it | evidently intended | confidence | as-written member | corrected member |
|---|---|---|---|---|---|---|
| jobs/jobs.go:180-184 | The date comes from `now` in the local zone, but the hour, minute and second come from the UTC target. The instant is built in UTC, and only one +24h correction is applied. | Local zone UTC-12, now 06:00Z, `At` 03:00:00Z: delay -3h, so the run fires at once at 06:00Z. Local zone UTC+14, now 12:00Z, `At` 20:00:00Z: delay 32h, so the run is a day late. | Delay to the next instant whose UTC time of day is the target, 0 <= delay < 24h. | not executed; affects only processes whose local zone is not UTC | FullTime.FirstDelayAsWritten, FullTime.AsWrittenWrongOutsideUtc | FullTime.FirstDelay |

The daily loop (`TimedLoops.RunDaily`) arms its timer with the code's delay. `FullTime.AsWrittenAgreesInUtc` shows that this equals the corrected delay when the local zone is UTC. The daily lemmas (`TimedLoops.DailyFirstRunAtTarget`, `TimedLoops.MidnightExample`) use the corrected delay.

## Left out

- Goroutines, `sync.WaitGroup`, the pool of ten workers, real timers and tickers, and channel blocking as scheduling. All are reduced to sequential steps. Overlapping match executions and the interleaving of the ten workers are not modelled. A launch is recorded, not executed.
- Reading `config.json`, JSON decoding, `JOB_CONFIG_LOCATION` and `EVENT_ROUTER_ADDRESS` lookups and their fatal exits (jobs/jobs.go:31-48, 85-90). The configuration is an already-decoded sequence.
- `buildMatchRegex` and `doesEventMatch` are not part of this model. The match test is the parameter `matches`. Regex compilation and its failures are not modelled.
- Go's `time.ParseDuration` is the parameter `parseDuration`.
- Go's general time parser, which the RFC 3339 layout falls back to, is not modelled. It also accepts, for instance, a one-digit hour. The model reads the RFC 3339 `full-time` grammar with upper-case "Z" only, and rejects a leap second 60, as Go does.
- `EqualFold` is modelled with ASCII case folding. For the only comparison made, against "match", Unicode simple folding gives the same answer.
- The loops run forever. The model follows a finite prefix: one run per element of `durations`.
- What a job does, its own errors, and the contents of events. Events are a type parameter.
- Logging.
- server.go, handlers/roominfo.go, mics/mics.go, microservice/microservice.go, localsystem/sys.go, monitoring/reporting.go, vendor/github.com/byuoitav/av-api/base/reporting.go, vendor/github.com/byuoitav/av-api/statusevaluators/status.go and dashboard/src/app/objects.ts. These are HTTP, websocket, polling, reboot and reporting plumbing, or type declarations, outside the scheduler.
- EventPipeline.Pipeline.ReadOnce: requires that the reader is not blocked. A reader blocked in a send cannot read; its event enters the channel in the next `WorkerStep`.
