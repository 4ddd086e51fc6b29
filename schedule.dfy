/** The scheduler loop as a specification: the wait after each cycle, what
    one iteration of `while running` does to the exporter's observable state,
    and what a run of several iterations does. Wall-clock time enters as the
    measured duration of each cycle; a shutdown signal enters as the point in
    the cycle at which it arrives. Sleeps are recorded, not taken. */
module Schedule {
  import opened RemoteClient
  import opened Datapoints
  import opened PollCycle

  /** The cap on the wait after a failed login, in seconds. */
  const BackoffCap: int := 60

  /** `min(APP_INTERVAL, 60)`: the wait after a failed login is the shorter
      of the interval and the cap. */
  function BackoffWait(interval: int): (w: int)
    ensures w <= BackoffCap && w <= interval
    ensures w == interval || w == BackoffCap
  {
    if interval < BackoffCap then interval else BackoffCap
  }

  /** `max(APP_INTERVAL - duration, 0)`: never negative, never more than a
      non-negative interval for a cycle that took non-negative time, zero once the cycle
      took the whole interval, and otherwise exactly what makes the cycle
      plus its wait last one interval. */
  function CycleWait(interval: int, duration: real): (w: real)
    ensures w >= 0.0
    ensures duration >= 0.0 && interval >= 0 ==> w <= interval as real
    ensures duration >= interval as real ==> w == 0.0
    ensures duration < interval as real ==> duration + w == interval as real
  {
    if interval as real - duration > 0.0 then interval as real - duration else 0.0
  }

  /** When, relative to the cycle, the shutdown signal arrives. */
  datatype StopSignal =
    | NoStop           // not during this cycle
    | StopBeforeSleep  // before the `running` test that guards the interval sleep
    | StopDuringSleep  // after that test; an interrupted sleep is resumed

  /** Everything from outside that one iteration sees: the login reply, the
      controller's reply to each datapoint fetch, the measured duration of
      the cycle, and the signal. */
  datatype CycleInput = CycleInput(login: Response, replies: int -> Response, duration: real, signal: StopSignal)

  /** The observable state of the exporter. */
  datatype Snapshot = Snapshot(gauges: map<int, real>, running: bool, sleeps: seq<real>, requests: seq<Request>)

  /** What the cycle logs about itself. */
  datatype Report = NotStarted | LoginFailed | Scraped(failed: nat)

  /** The sleeps one cycle takes. After a failed login the backoff is slept
      whether or not a stop has been requested, and the interval sleep is not
      considered. When the backoff is negative, `time.sleep` raises, the
      cycle's catch-all handler absorbs it, and the cycle goes on to the
      interval sleep. The interval sleep is taken only when it is positive
      and the exporter is still running. */
  function CycleSleeps(interval: int, loggedIn: bool, duration: real, stillRunning: bool): (s: seq<real>)
    ensures |s| <= 1
    ensures forall i :: 0 <= i < |s| ==> s[i] >= 0.0
    ensures !loggedIn && interval >= 0 ==> s == [BackoffWait(interval) as real]
    ensures loggedIn && !stillRunning ==> s == []
    ensures loggedIn && stillRunning && duration < interval as real ==> s == [interval as real - duration]
    ensures loggedIn && duration >= interval as real ==> s == []
    ensures duration >= 0.0 ==> forall i :: 0 <= i < |s| ==> s[i] <= interval as real
    ensures duration >= 0.0 && !loggedIn ==> forall i :: 0 <= i < |s| ==> s[i] <= BackoffCap as real
  {
    var backoff := BackoffWait(interval);
    if !loggedIn && backoff >= 0 then [backoff as real]
    else
      var w := CycleWait(interval, duration);
      if w > 0.0 && stillRunning then [w] else []
  }

  /** The requests one cycle sends: the login, then a fetch for every
      datapoint in table order if the login succeeded. */
  function CycleRequests(loggedIn: bool): seq<Request>
  {
    [LoginRequest] + if loggedIn then FetchRequests(TableIds) else []
  }

  /** One iteration of the scheduler loop. A stopped exporter starts no
      cycle. A signal clears `running` whenever in the cycle it arrives. */
  function StepSpec(s: Snapshot, interval: int, input: CycleInput): Snapshot
  {
    if !s.running then s
    else
      var loggedIn := Login(input.login);
      Snapshot(
        if loggedIn then Refreshed(s.gauges, TableIds, input.replies) else s.gauges,
        input.signal.NoStop?,
        s.sleeps + CycleSleeps(interval, loggedIn, input.duration, !input.signal.StopBeforeSleep?),
        s.requests + CycleRequests(loggedIn))
  }

  /** What one iteration logs. */
  function StepReport(running: bool, input: CycleInput): Report
  {
    if !running then NotStarted
    else if !Login(input.login) then LoginFailed
    else Scraped(Failures(TableIds, input.replies))
  }

  /** Several iterations, in order. */
  function RunSpec(s: Snapshot, interval: int, inputs: seq<CycleInput>): Snapshot
    decreases |inputs|
  {
    if inputs == [] then s
    else StepSpec(RunSpec(s, interval, inputs[..|inputs| - 1]), interval, inputs[|inputs| - 1])
  }

  /** The invariant the exporter keeps: the gauge map has exactly the
      table's keys, and every sleep it ever requested lies between zero and
      the interval. */
  predicate Healthy(s: Snapshot, interval: int)
  {
    s.gauges.Keys == TableIdSet &&
    forall i :: 0 <= i < |s.sleeps| ==> 0.0 <= s.sleeps[i] <= interval as real
  }

  /** Every iteration keeps the invariant when its cycle took non-negative
      time. */
  lemma StepKeepsHealthy(s: Snapshot, interval: int, input: CycleInput)
    requires Healthy(s, interval)
    requires input.duration >= 0.0
    ensures Healthy(StepSpec(s, interval, input), interval)
  {
    if s.running {
      var t := StepSpec(s, interval, input);
      var extra := CycleSleeps(interval, Login(input.login), input.duration, !input.signal.StopBeforeSleep?);
      assert t.sleeps == s.sleeps + extra;
      ScrapeKeepsRegistry(s.gauges, input.replies);
      assert t.gauges.Keys == TableIdSet;
      forall i | 0 <= i < |t.sleeps| ensures 0.0 <= t.sleeps[i] <= interval as real {
        if i >= |s.sleeps| {
          assert t.sleeps[i] == extra[i - |s.sleeps|];
        }
      }
    }
  }

  /** The requests of a cycle with a successful login: the login first,
      then every datapoint exactly once. */
  lemma ScrapeRequests()
    ensures CycleRequests(true)[0] == LoginRequest
    ensures forall id :: multiset(CycleRequests(true))[FetchRequest(id)] == if id in TableIdSet then 1 else 0
  {
    TableIsMapping();
    forall id ensures multiset(CycleRequests(true))[FetchRequest(id)] == if id in TableIdSet then 1 else 0 {
      EachIdFetchedOnce(TableIds, id);
    }
  }

  /** A successful login followed by a scrape: the gauges are refreshed
      from the replies, every datapoint is requested once after the login,
      and the tally is the number of datapoints whose fetch raised, between
      0 and the table size. */
  lemma ScrapeCycle(s: Snapshot, interval: int, input: CycleInput)
    requires s.running && Login(input.login)
    ensures StepReport(s.running, input) == Scraped(|FailedIds(TableIds, input.replies)|)
    ensures |FailedIds(TableIds, input.replies)| <= |Table|
    ensures StepSpec(s, interval, input).gauges == Refreshed(s.gauges, TableIds, input.replies)
    ensures StepSpec(s, interval, input).requests == s.requests + CycleRequests(true)
  {
    TableIsMapping();
    FailuresCountsFailedIds(TableIds, input.replies);
  }

  /** A failed login fetches nothing and changes no gauge; with a
      non-negative interval it waits the backoff and nothing else. */
  lemma FailedLoginCycle(s: Snapshot, interval: int, input: CycleInput)
    requires s.running && !Login(input.login)
    ensures StepReport(s.running, input) == LoginFailed
    ensures StepSpec(s, interval, input).gauges == s.gauges
    ensures StepSpec(s, interval, input).requests == s.requests + [LoginRequest]
    ensures interval >= 0 ==> StepSpec(s, interval, input).sleeps == s.sleeps + [BackoffWait(interval) as real]
  {
  }

  /** A stop requested before the sleep test skips the interval sleep of a
      scraped cycle and ends the loop. */
  lemma StopSkipsIntervalSleep(s: Snapshot, interval: int, input: CycleInput)
    requires s.running && Login(input.login) && input.signal == StopBeforeSleep
    ensures StepSpec(s, interval, input).sleeps == s.sleeps
    ensures !StepSpec(s, interval, input).running
  {
  }

  /** Running two stretches of inputs is running their concatenation. */
  lemma {:induction false} RunSpecAppend(s: Snapshot, interval: int, a: seq<CycleInput>, b: seq<CycleInput>)
    ensures RunSpec(s, interval, a + b) == RunSpec(RunSpec(s, interval, a), interval, b)
    decreases |b|
  {
    if b == [] {
      assert a + b == a;
    } else {
      assert (a + b)[..|a + b| - 1] == a + b[..|b| - 1];
      assert (a + b)[|a + b| - 1] == b[|b| - 1];
      RunSpecAppend(s, interval, a, b[..|b| - 1]);
    }
  }

  /** A stopped exporter stays stopped and changes nothing. */
  lemma {:induction false} StoppedIsFrozen(s: Snapshot, interval: int, inputs: seq<CycleInput>)
    requires !s.running
    ensures RunSpec(s, interval, inputs) == s
    decreases |inputs|
  {
    if inputs != [] {
      StoppedIsFrozen(s, interval, inputs[..|inputs| - 1]);
    }
  }

  /** Once the exporter has stopped, no further cycle starts: later inputs
      change nothing, in particular no request is sent and no sleep taken. */
  lemma NoCycleAfterStop(s: Snapshot, interval: int, done: seq<CycleInput>, later: seq<CycleInput>)
    requires !RunSpec(s, interval, done).running
    ensures RunSpec(s, interval, done + later) == RunSpec(s, interval, done)
  {
    RunSpecAppend(s, interval, done, later);
    StoppedIsFrozen(RunSpec(s, interval, done), interval, later);
  }

  /** The invariant holds over any run whose cycles took non-negative
      time. */
  lemma {:induction false} RunKeepsHealthy(s: Snapshot, interval: int, inputs: seq<CycleInput>)
    requires Healthy(s, interval)
    requires forall i :: 0 <= i < |inputs| ==> inputs[i].duration >= 0.0
    ensures Healthy(RunSpec(s, interval, inputs), interval)
    decreases |inputs|
  {
    if inputs != [] {
      var front := inputs[..|inputs| - 1];
      RunKeepsHealthy(s, interval, front);
      StepKeepsHealthy(RunSpec(s, interval, front), interval, inputs[|inputs| - 1]);
    }
  }

  /** Cadence: in a scraped cycle that is still running when it reaches the
      sleep test, the interval sleep ends one interval after the cycle's
      start, or at once if the cycle took longer than the interval. Whether
      another cycle follows depends on a signal during that sleep. */
  lemma Cadence(s: Snapshot, interval: int, input: CycleInput)
    requires s.running && Login(input.login) && !input.signal.StopBeforeSleep?
    ensures var slept := StepSpec(s, interval, input).sleeps[|s.sleeps|..];
            input.duration + (if slept == [] then 0.0 else slept[0])
              == if input.duration < interval as real then interval as real else input.duration
  {
  }
}
