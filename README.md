# dnspod-watch failover logic in Dafny

dnspod-watch watches DNS records hosted at DNSPod. Once a minute it probes
whether the IP address behind a record accepts TCP connections on port 80.
When the address stops answering it sets the record's status to DISABLE, and
when the address answers again it sets it back to ENABLE. This project
models the decision logic that turns the stream of probe results into those
calls, and proves what it does.

The source holds two such loops. `Start` looks up one record and launches
the `watch` component's own loop on it (`internal/watch/watch.go:44-48`).
That loop sends no notification. `internal/watch/record.go` holds a
per-record loop that also sends a push notification for every attempt and
waits 30 minutes between enable attempts. Nothing in the source calls
`newRecord` or starts that loop. Both loops are modelled, and lemmas compare
them. The `retry` gate of `internal/watch/switch.go` is not used by either
loop; it is modelled on its own.

Files and modules:

- `common.dfy` (`Common`): `Option`, `Outcome` (a Go `error`: `Pass` for nil,
  `Fail(message)`), time in seconds (`Minute`), record ids as 64-bit
  unsigned values, and `Target`, the domain, value and record id a watcher
  works on.
- `dns_utils.dfy` (`DnsUtils`, from `internal/watch/utils.go`): the record
  lookup `QueryRecord`, found by the first-match search `FirstMatch`. Also
  the `Enable`/`Disable` status requests, and a map from record id to status
  standing for the provider, with `ApplyAll` describing what a sequence of
  answered calls leaves there.
- `switch.dfy` (`Switch`, from `internal/watch/switch.go`): the `retry` gate.
  It is the class `Retry`, whose method `Check` is proved equal to the pure
  transition `Step`. `Run` folds `Step` over a sequence of checks.
- `record_watch.dfy` (`RecordWatch`, from `internal/watch/record.go`): the
  per-record loop. The class `Record` holds `isDisable`. `Step` is one tick,
  with the loop locals `count` and `lastSwitch` passed in and returned.
  `Watch` runs the loop over a finite sequence of ticks. Both are proved
  against the pure `Tick` and `Run`.
- `component_watch.dfy` (`ComponentWatch`, from `internal/watch/watch.go`):
  the loop that `Start` launches, built the same way (class `Watch`, methods
  `Step` and `Watch`). It also holds lemmas comparing it with the
  per-record loop.

Inputs that stand for I/O:

- Each gate check takes the observation and whether `ok` and `bad` would
  succeed if called. It also takes two clock readings: `now`, read for the
  cool-down, and `doneAt`, read again after the callback returns and stored
  as the transition time.
- Each tick takes whether the probe succeeded, the provider's reply to a
  status call made on that tick, and `now`.
- The gate's `lastTime` is `None` until its first committed transition. This
  stands for Go's zero time, so the cool-down cannot apply before then.

What the code does, where a quick reading would expect otherwise:

- The guard `count > 3` in `switch.go` does not make a fresh gate activate
  on the fourth true observation. `lastStatus` starts false, so the first
  true observation resets `count` to 0, and `ok` is first called on the
  fifth (`FifthTrueActivates`). Generally, a callback needs five equal
  observations in a row (`CallbackNeedsFiveAlike`).
- Neither `record.go` nor `watch.go` uses `retry` or measures latency. Each
  loop keeps its own counter.
- The comments at `record.go:48` and `:81`, and at `watch.go:66` and `:85`,
  say three failures or successes in a row. The counter actually counts
  ticks since the loop started or since the last attempt, and good probes
  also increment it. So three good probes followed by one failure trigger a
  disable attempt (`SingleFailureDisables`). The guaranteed spacing is
  between attempts (`AttemptsAreSpaced`).
- `isDisable` starts false whatever the status of the record that was
  looked up (`record.go:28`, `watch.go:33`). A record that is already
  DISABLE at the provider when the loop starts is therefore never enabled
  while its IP answers (`ReachableNeverEnables` in both loops).

## Model

| member | source | states |
|---|---|---|
| `DnsUtils.FirstMatch` | internal/watch/utils.go:23-31 | the index found is the first, in list order, whose name and value match and whose line matches when a line is given; none is found only when no record matches |
| `DnsUtils.QueryRecord` | internal/watch/utils.go:12-33 | a failed list call returns its error and no record; otherwise the record returned is the first matching one in the list, and "record not found" is returned only when none matches |
| `DnsUtils.Enable` | internal/watch/utils.go:35-47 | the request asks for ENABLE on the given domain and record id, and the provider's error is returned unchanged; a successful call leaves the record enabled at the provider, a failed one changes nothing |
| `DnsUtils.Disable` | internal/watch/utils.go:49-61 | the request asks for DISABLE on the given domain and record id, and the provider's error is returned unchanged; a successful call leaves the record disabled at the provider, a failed one changes nothing |
| `DnsUtils.LastSuccessWins` | internal/watch/utils.go:35-61 | after any sequence of enable/disable calls, the provider holds for each record the status asked by the last successful call on it; failed calls change nothing |
| `DnsUtils.EnableDisableEnable` | internal/watch/utils.go:35-61 | enable, disable and enable on one record, all succeeding, leave it enabled; a failing enable after a disable leaves it disabled |
| `Switch.Retry.constructor` | internal/watch/switch.go:12-17 | a new gate has every field at its zero value: last and current status false, count 0, no transition time |
| `Switch.Step` | internal/watch/switch.go:19-51 | a callback is invoked only past the threshold: `ok` on a true observation of an inactive gate outside the cool-down, `bad` on a false observation of an active gate; `lastStatus` becomes the observation; the flag flips exactly when the invoked callback succeeds, and the transition time is then the clock read after the callback returned; a failed callback leaves both unchanged |
| `Switch.Retry.Check` | internal/watch/switch.go:19-51 | the object's new fields and the callback invoked are those of `Step`, so at most one callback is invoked per call; the error returned is always nil; the count stays non-negative |
| `Switch.StepCounter` | internal/watch/switch.go:20-26 | the count grows by one when the observation repeats `lastStatus`, is reset to 0 otherwise, and stays non-negative |
| `Switch.OkCalledIff` | internal/watch/switch.go:27-35 | `ok` is invoked if and only if the observation is true, the gate is inactive, the updated count exceeds 3 and 60 minutes have passed since the last transition |
| `Switch.BadCalledIff` | internal/watch/switch.go:36-48 | `bad` is invoked if and only if the observation is false, the gate is active and the updated count exceeds 3; there is no cool-down |
| `Switch.CoolDownSuppressesOk` | internal/watch/switch.go:27-30 | a true observation less than 60 minutes after the last transition invokes nothing and leaves the current status and transition time unchanged |
| `Switch.FailedCallbackRetries` | internal/watch/switch.go:27-48 | the count is not reset by a callback: after a failed `ok` the next true observation outside the cool-down invokes `ok` again, and after a failed `bad` the next false observation invokes `bad` again |
| `Switch.NoOkWhileCoolingDown` | internal/watch/switch.go:27-30 | an inactive gate invokes no `ok` and keeps its status and transition time during any sequence of checks within 60 minutes of its last transition |
| `Switch.DeactivationThrottlesActivation` | internal/watch/switch.go:43-47 | a successful deactivation also starts the cool-down: no check in the 60 minutes after `bad` returned invokes `ok` |
| `Switch.CounterTracksRun` | internal/watch/switch.go:19-42 | after any run from a fresh gate, the last count + 1 observations all equal `lastStatus`, the initial false counting as one observation, and the gate is active only after some true observation |
| `Switch.CallbackNeedsFiveAlike` | internal/watch/switch.go:12-48 | from a fresh gate, a callback is invoked only when this observation and the four before it are all equal |
| `Switch.FifthTrueActivates` | internal/watch/switch.go:12-35 | from a fresh gate, four true observations invoke nothing and the fifth invokes `ok`, whatever the time |
| `RecordWatch.Record.constructor` | internal/watch/record.go:24-34 | a new record keeps its record item, domain and value, and starts with `isDisable` false |
| `RecordWatch.Tick` | internal/watch/record.go:43-105 | an attempt needs the counter past 3 and asks for the opposite of `isDisable`, an enable also needing the cool-down since `lastSwitch`; its call is for the record with the tick's reply; the counter grows by one on every tick and restarts at 0 exactly on an attempt, whatever the reply; `isDisable` changes only on a successful call; `lastSwitch` moves only on an enable attempt, to the tick's time, even when the call fails |
| `RecordWatch.Record.Step` | internal/watch/record.go:43-105 | one tick changes `isDisable`, the counter and `lastSwitch`, and makes the call and notification, exactly as `Tick` says |
| `RecordWatch.Record.Watch` | internal/watch/record.go:37-110 | running the loop with `lastSwitch` at the start time and the counter at 0 leaves `isDisable` and produces the effects that `Run` folds from `Tick` |
| `RecordWatch.DisableAttemptIff` | internal/watch/record.go:46-57 | a disable attempt happens if and only if the probe fails, the record is not disabled and the incremented counter exceeds 3 |
| `RecordWatch.EnableAttemptIff` | internal/watch/record.go:73-88 | an enable attempt happens if and only if the probe succeeds, the record is disabled, the incremented counter exceeds 3 and 30 minutes have passed since `lastSwitch` |
| `RecordWatch.CoolDownOnlyCounts` | internal/watch/record.go:73-78 | within 30 minutes of `lastSwitch`, an enable-eligible tick only increments the counter and makes no call |
| `RecordWatch.FlagFollowsSuccessfulCall` | internal/watch/record.go:49-97 | every attempt is one call for the record's domain and id; `isDisable` changes only when that call succeeds, becoming true after DISABLE and false after ENABLE |
| `RecordWatch.OneNoticePerAttempt` | internal/watch/record.go:57-98 | each attempt sends exactly one notification with the event's title and the base message; on failure, `"\n记录修改失败: "` and the error text are appended |
| `RecordWatch.AttemptsAreSpaced` | internal/watch/record.go:45-82 | two attempts are more than 3 ticks apart; the first comes no earlier than the tick that takes the starting counter past 3; the counter never exceeds the ticks since the start or the last attempt |
| `RecordWatch.SingleFailureDisables` | internal/watch/record.go:45-50 | for a new record, three good probes followed by one failed probe cause a disable attempt on the fourth tick |
| `RecordWatch.ReachableNeverEnables` | internal/watch/record.go:24-105 | a loop started with `isDisable` false makes no call and stays not disabled while every probe succeeds, so a record that is DISABLE at the provider stays so |
| `RecordWatch.FlagMirrorsProvider` | internal/watch/record.go:57-96 | if the provider's status for the record agrees with `isDisable` before the loop, it still agrees after the loop's calls are applied in order |
| `ComponentWatch.Watch.constructor` | internal/watch/watch.go:31-35 | the watcher starts with `isDisable` false |
| `ComponentWatch.Tick` | internal/watch/watch.go:62-102 | a call needs the counter past 3 and asks for the opposite of `isDisable`, with no cool-down; it is for the configured domain and the record's id with the tick's reply; the counter grows by one on every tick and restarts at 0 exactly on a call, whatever the reply; `isDisable` changes only on a successful call |
| `ComponentWatch.Watch.Step` | internal/watch/watch.go:62-102 | one tick changes `isDisable` and the counter, and makes the call, exactly as `Tick` says |
| `ComponentWatch.Watch.Watch` | internal/watch/watch.go:57-107 | running the loop with the counter at 0 leaves `isDisable` and produces the calls that `Run` folds from `Tick` |
| `ComponentWatch.CallIff` | internal/watch/watch.go:65-92 | a DISABLE call is made if and only if the probe fails, the watcher is not disabled and the counter exceeds 3; an ENABLE call if and only if the probe succeeds, the watcher is disabled and the counter exceeds 3, with no cool-down |
| `ComponentWatch.FlagFollowsSuccessfulCall` | internal/watch/watch.go:67-99 | every call is for the configured domain and the record's id; `isDisable` changes only on a successful call, becoming true after DISABLE and false after ENABLE |
| `ComponentWatch.QuietWhenReachable` | internal/watch/watch.go:84-102 | a good probe that does not meet the enable condition makes no call and leaves `isDisable` unchanged |
| `ComponentWatch.ReachableNeverEnables` | internal/watch/watch.go:31-102 | the loop `Start` launches starts with `isDisable` false; it then makes no call and stays not disabled while every probe succeeds, so a record that is DISABLE at the provider stays so |
| `ComponentWatch.FlagMirrorsProvider` | internal/watch/watch.go:75-99 | if the provider's status for the record agrees with `isDisable` before the loop, it still agrees after the loop's calls are applied in order |
| `ComponentWatch.CoolDownIsTheOnlyDifference` | internal/watch/watch.go:62-102 | on any tick, the per-record loop and the component loop reach the same `isDisable` and counter and make the same call, except when an enable-eligible tick falls within the per-record loop's 30-minute cool-down |
| `ComponentWatch.RunsAgreeWhenSpacedOut` | internal/watch/watch.go:57-107 | if ticks are at least 30 minutes apart and at least 30 minutes after the start, both loops make the same calls and end with the same `isDisable` and counter |

## Left out

- The probe `checkIP` (a TCP dial with a 10-second timeout) is not modelled. Each tick takes its result as a boolean.
- The DNSPod client calls `ModifyRecordStatus` and `DescribeRecordList` are not modelled, nor are the request objects' context. The model records the request sent and takes the provider's reply, or the record list, as an input.
- `pushcat.Send` and its HTTP fan-out are not modelled. The notification is recorded as the attempt's effect. The source only logs the send error, so the model drops it.
- Logging through zap is not modelled.
- The wall clock is not modelled (`time.Now`, `time.Since`, the one-minute ticker). Each clock reading is an explicit integer number of whole seconds (`now`, and for the gate also `doneAt`). Go compares nanosecond durations against the 60- and 30-minute cool-downs, so a difference of less than a second at the cool-down boundary is lost. `time.Duration` overflow and monotonic-clock details are not modelled.
- The infinite `for`/`select` loop and its `ctx.Done()` branch are not modelled, because cancellation is concurrency. Each loop runs over a finite sequence of ticks.
- `watch.Start`, `watch.init`, configuration scanning, goroutine launch and `cmd/app/main.go` are not modelled; they are start-up plumbing.
- The `record` struct's `w` and `logger` fields are not modelled, and neither are the `watch` struct's `config`, `credential` and `client` fields. The loops receive the domain, value and record id as a `Target`.
- `DnsUtils.Apply` assumes the provider's answer is truthful: a call answered with no error set the status, and a call answered with an error changed nothing. A call that fails silently, or times out after taking effect, would break this. Both `FlagMirrorsProvider` lemmas rest on it, and on the provider agreeing with `isDisable` when the loop starts. The source does not establish that agreement (`ReachableNeverEnables`).
- Go's 64-bit `int` wrap-around of the tick and gate counters is not modelled. It would need more than 2^63 ticks.
- Nil-pointer dereferences of record-list fields (`*v.Name`, `*record.RecordId`) are not modelled. Every record in the list has all its fields.
- No latency-based load balancing is modelled: no source file measures latency or drives a second gate.
