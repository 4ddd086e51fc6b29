# OWZ heating-controller exporter, modelled in Dafny

The exporter polls an OWZ heating controller over HTTP and publishes seven
temperature readings as Prometheus gauges. Each pass of its main loop does four things:

1. It logs in.
2. If the login fails, it sleeps a short backoff and skips the rest of the cycle.
3. Otherwise it fetches every datapoint of a fixed table in order. It sets the
   gauge of each fetch that returned a value, counts the fetches that raised,
   and never lets one failure stop the rest.
4. It sleeps whatever is left of `APP_INTERVAL`, provided no shutdown signal
   has cleared the `running` flag.

This project models that decision logic and proves its properties.

Files, one module each:

- `remote_client.dfy` (`RemoteClient`): what a reply can look like, and how
  `owz_login` and `owz_get_dp` classify it.
- `datapoints.dfy` (`Datapoints`): the `DATAPOINTS` table.
- `poll_cycle.dfy` (`PollCycle`): the scrape as functions (`Refreshed` for the
  gauges, `Failures` for the tally, `FetchRequests` for the requests sent), and
  the lemmas about them.
- `schedule.dfy` (`Schedule`): the two waits, one loop iteration (`StepSpec`),
  a run of iterations (`RunSpec`), and lemmas about stopping, sleeping and
  cadence.
- `exporter.dfy` (`Exporter`): the process as a class. It holds the gauge map,
  the `running` flag, the sleeps requested so far and the requests sent so far.
  `RequestStop` is the signal handler, `Scrape` is the `for` loop, `Step` is
  one pass of `while running`, and `Run` is the loop itself. Every method is
  proved against the functions in `PollCycle` and `Schedule`.

Inputs from outside are parameters:

- The controller's replies: the login reply, and a reply for each plant item id.
- The measured duration of each cycle.
- The point in the cycle at which a shutdown signal arrives, if one does.

Sleeping is recorded, not performed.

Some of the code's behaviour is easy to misread. In each of these cases the model follows the code:

- `raise_for_status` raises only for 4xx and 5xx statuses. A 1xx or 3xx reply
  therefore counts as a successful login or fetch, not only 2xx
  (`RemoteClient.ErrorStatus`).
- A gauge that was never set reads 0.0, the Prometheus client's initial value.
  It is not "unset" (`Exporter.InitialGauges`).
- The backoff sleep after a failed login is taken even if a stop was already
  requested. Only the interval sleep tests `running`.
- A negative `APP_INTERVAL` makes `time.sleep(min(APP_INTERVAL, 60))` raise.
  The catch-all handler absorbs the error, and the cycle goes on to the
  interval wait, which is then 0 for a non-negative duration. No sleep at all
  is taken (`Schedule.CycleSleeps`).
- `value is None` is tested, not falsiness, so a reading of 0 is accepted
  (`RemoteClient.ZeroIsAReading`).

## Model

| member | source | states |
|---|---|---|
| `RemoteClient.Login` | build/main.py:54-67 | never fails; true exactly when the request came back with a status that `raise_for_status` accepts |
| `RemoteClient.ErrorStatus` | build/main.py:61 | definition, no contract: the statuses `raise_for_status` rejects, 400 to 599; `Login` and `GetDp` state their behaviour in terms of it |
| `RemoteClient.GetDp` | build/main.py:70-88 | returns Ok(x) exactly when a non-error reply holds a JSON object whose "value" converts to x. Otherwise it fails, and the reason is the first check that failed: transport, error status, body not JSON, decoded body without `.get`, "value" missing or null, or `float()` rejecting it |
| `RemoteClient.LoginMatchesFetchGate` | build/main.py:60-61 | a login succeeds on exactly the replies on which a fetch gets past its transport and status checks |
| `RemoteClient.ZeroIsAReading` | build/main.py:80-85 | a value of 0 is returned as 0.0, not treated as missing |
| `Datapoints.TableIdsAre` | build/main.py:33-41 | the ids taken from the table are 2420, 2422, 2425, 2433, 2436, 2438, 2440, in listing order |
| `Datapoints.TableIsMapping` | build/main.py:33-41 | seven entries, no plant item id twice |
| `Datapoints.NamesAreDistinct` | build/main.py:34-40 | no metric name twice |
| `PollCycle.Refreshed` | build/main.py:117-123 | definition, no contract: the gauge map after visiting the ids in order, setting the gauge of each fetch that returned a value; `RefreshedKeys` and `RefreshedAt` characterise it |
| `PollCycle.FetchRequests` | build/main.py:117-119 | definition, no contract: one fetch request per visited id, in order; `EachIdFetchedOnce` characterises it |
| `PollCycle.Failures` | build/main.py:106-128 | the tally starts at 0, never exceeds the number of datapoints visited, and is 0 exactly when every fetch returned a value |
| `PollCycle.FailuresCountsFailedIds` | build/main.py:117-128 | over distinct ids, the tally is the number of datapoints whose fetch raised, and successes plus failures equal the table size |
| `PollCycle.RefreshedKeys` | build/main.py:117-123 | a scrape adds keys only for successful fetches |
| `PollCycle.RefreshedAt` | build/main.py:117-123 | after a scrape, a datapoint whose fetch returned v holds v; every other gauge keeps its previous value |
| `PollCycle.ScrapeKeepsRegistry` | build/main.py:117-123 | scraping the whole table keeps the registry's key set |
| `PollCycle.FailureIsIsolated` | build/main.py:117-123 | if the fetch of x raises, the scrape ends as if x had succeeded, except that gauge x keeps its old value |
| `PollCycle.RefreshIsIdempotent` | build/main.py:117-123 | a second scrape with the same replies changes nothing |
| `PollCycle.EachIdFetchedOnce` | build/main.py:117-119 | the fetches are the ids in table order, each id exactly once, whatever the replies |
| `Schedule.BackoffWait` | build/main.py:113 | the wait after a failed login is at most 60 and at most the interval, and equals one of them |
| `Schedule.CycleWait` | build/main.py:134-135 | the interval wait is never negative; it is at most the interval for a non-negative interval and duration; it is 0 once the duration reaches the interval; otherwise duration plus wait equals the interval |
| `Schedule.CycleSleeps` | build/main.py:111-138 | a cycle sleeps at most once and never a negative time. After a failed login with a non-negative interval it sleeps exactly the backoff. After a scrape it sleeps interval minus duration only if that is positive and no stop came before the sleep test. With a non-negative duration every sleep is at most the interval, and at most 60 after a failed login |
| `Schedule.CycleRequests` | build/main.py:111-119 | definition, no contract: a cycle sends the login, then the table's fetches if the login succeeded; `ScrapeRequests` and `FailedLoginCycle` characterise it |
| `Schedule.StepSpec` | build/main.py:104-138 | definition, no contract: one pass of the loop on the observable state; `StepKeepsHealthy`, `ScrapeCycle`, `FailedLoginCycle`, `StopSkipsIntervalSleep` and `Cadence` characterise it |
| `Schedule.StepReport` | build/main.py:111-128 | definition, no contract: a pass reports no cycle, a failed login, or the failure tally of its scrape; `ScrapeCycle` and `FailedLoginCycle` characterise it |
| `Schedule.RunSpec` | build/main.py:104 | definition, no contract: the passes in order; `RunSpecAppend`, `StoppedIsFrozen`, `NoCycleAfterStop` and `RunKeepsHealthy` characterise it |
| `Schedule.ScrapeRequests` | build/main.py:109-119 | a cycle with a successful login sends the login first, then one fetch per table id |
| `Schedule.ScrapeCycle` | build/main.py:116-128 | after a successful login, the gauges are refreshed from the replies and the reported tally is the number of failing datapoints, at most the table size |
| `Schedule.FailedLoginCycle` | build/main.py:111-114 | after a failed login, nothing is fetched and no gauge changes; with a non-negative interval, exactly the backoff is slept |
| `Schedule.StopSkipsIntervalSleep` | build/main.py:137-138 | a stop requested before the sleep test skips the interval sleep and ends the loop |
| `Schedule.StepKeepsHealthy` | build/main.py:104-138 | an iteration with non-negative duration keeps the gauge keys equal to the table's, and every recorded sleep between 0 and the interval |
| `Schedule.RunSpecAppend` | build/main.py:104 | running two stretches of inputs equals running their concatenation |
| `Schedule.StoppedIsFrozen` | build/main.py:104 | a stopped exporter changes nothing, whatever inputs follow |
| `Schedule.NoCycleAfterStop` | build/main.py:104 | once stopped, no later input starts a cycle, sends a request or sleeps |
| `Schedule.RunKeepsHealthy` | build/main.py:104-138 | over any run with non-negative durations, the gauge key set stays fixed and no sleep is negative or longer than the interval |
| `Schedule.Cadence` | build/main.py:133-138 | in a scraped cycle still running at the sleep test, the interval sleep ends one interval after the cycle's start, or immediately if the cycle took longer |
| `Exporter.Exporter.constructor` | build/main.py:33-44 | every table gauge starts at 0.0; running; nothing slept or sent |
| `Exporter.Exporter.RequestStop` | build/main.py:47-51 | clears `running` and nothing else |
| `Exporter.Exporter.Scrape` | build/main.py:116-123 | the loop leaves the gauges as `Refreshed` says, sends the fetches `FetchRequests` lists, and returns the tally `Failures` counts |
| `Exporter.Exporter.Backoff` | build/main.py:113 | records the backoff sleep when it is non-negative, and otherwise reports that `time.sleep` refused it |
| `Exporter.Exporter.WaitInterval` | build/main.py:133-138 | records the interval sleep only when it is positive and the exporter is running |
| `Exporter.Exporter.FinishCycle` | build/main.py:133-138 | the interval wait, then a signal arriving during it clears `running` |
| `Exporter.Exporter.SkipCycle` | build/main.py:111-114 | a failed-login cycle ends in the state `StepSpec` gives |
| `Exporter.Exporter.ScrapeCycle` | build/main.py:116-138 | a successful-login cycle ends in the state `StepSpec` gives and keeps the registry's keys |
| `Exporter.Exporter.Step` | build/main.py:104-138 | one iteration changes the state as `StepSpec` says and reports as `StepReport` says; a stopped exporter starts no cycle |
| `Exporter.Exporter.Run` | build/main.py:104-140 | the loop ends in the state `RunSpec` gives; cycle j starts exactly when the exporter is still running after the first j inputs |

## Left out

- HTTP transport is not modelled: sessions, cookies, query encoding, `verify=False` and the 30-second timeouts. A reply is an abstract value.
- JSON decoding and `float()` are not modelled. A "value" is abstractly convertible to a real or not. Floating-point rounding, NaN and infinities are out of scope.
- The Prometheus client is not modelled: gauge objects, `start_http_server`, and the concurrent scrape listener that reads the gauges. The gauges are a map from plant item id to value.
- OS signals and their registration are not modelled. A signal is an input saying where in the cycle `RequestStop` runs.
- `time.time()` and `time.sleep` are not modelled. The measured duration is an input, and sleeps are recorded rather than taken.
- Logging, reading the environment, and the exit on a missing variable (lines 18-30 and 143-151) are configuration plumbing. `APP_INTERVAL` is a constructor parameter.
- The catch-all handler at lines 130-131 is modelled only for the error it can actually meet here: `time.sleep` refusing a negative backoff. Any other exception at that level would come from library code outside the model, such as session construction or logging.
- `Exporter.Exporter.Run`: consumes a finite sequence of cycle inputs. The source loop runs until a signal arrives, possibly forever.
- `Schedule.RunKeepsHealthy`: the bound "every sleep is at most the interval" is proved only for cycles with a non-negative measured duration. A wall clock that steps backwards can make the interval sleep longer than `APP_INTERVAL`, as the code allows.
