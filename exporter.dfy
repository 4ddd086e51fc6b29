/** The exporter process itself: the registered gauges, the `running` flag
    that the shutdown handler clears, and the main loop. Instead of sleeping
    and sending requests, the object records the sleeps it asks for and the
    requests it sends; each method is proved against the specification in
    `Schedule` and `PollCycle`. */
module Exporter {
  import opened RemoteClient
  import opened Datapoints
  import opened PollCycle
  import opened Schedule

  /** A freshly registered gauge reads 0.0 until its first update. */
  const InitialGauges: map<int, real> := map id | id in TableIdSet :: 0.0

  class Exporter {
    /** `APP_INTERVAL`, in seconds. */
    const interval: int
    /** The current value of each datapoint's gauge, by plant item id. */
    var gauges: map<int, real>
    /** Cleared by the shutdown handler; tested by the main loop. */
    var running: bool
    /** Every sleep requested so far, in order. */
    var sleeps: seq<real>
    /** Every request sent to the controller so far, in order. */
    var requests: seq<Request>

    /** The observable state, as the specification sees it. */
    function State(): Snapshot
      reads this
    {
      Snapshot(gauges, running, sleeps, requests)
    }

    /** The gauge registry has exactly the table's keys. */
    ghost predicate Valid()
      reads this
    {
      gauges.Keys == TableIdSet
    }

    /** Registers the gauges, running, nothing slept or sent yet. */
    constructor (interval: int)
      ensures Valid()
      ensures this.interval == interval
      ensures State() == Snapshot(InitialGauges, true, [], [])
      ensures Healthy(State(), interval)
    {
      this.interval := interval;
      gauges := InitialGauges;
      running := true;
      sleeps := [];
      requests := [];
    }

    /** `signal_handler`: asks the main loop to stop. */
    method RequestStop()
      modifies this`running
      ensures !running
    {
      running := false;
    }

    /** The `for` loop over the table: fetch every datapoint in order, set
        its gauge on success, count it on failure, and go on either way. */
    method Scrape(replies: int -> Response) returns (failed: nat)
      modifies this`gauges, this`requests
      ensures gauges == Refreshed(old(gauges), TableIds, replies)
      ensures requests == old(requests) + FetchRequests(TableIds)
      ensures failed == Failures(TableIds, replies)
    {
      failed := 0;
      for i := 0 to |TableIds|
        invariant gauges == Refreshed(old(gauges), TableIds[..i], replies)
        invariant requests == old(requests) + FetchRequests(TableIds[..i])
        invariant failed == Failures(TableIds[..i], replies)
      {
        var id := TableIds[i];
        assert TableIds[..i + 1][..i] == TableIds[..i];
        requests := requests + [FetchRequest(id)];
        match GetDp(replies(id))
        case Ok(v) =>
          gauges := gauges[id := v];
        case Fail(_) =>
          failed := failed + 1;
      }
      assert TableIds[..|TableIds|] == TableIds;
    }

    /** The sleep after a failed login, `min(APP_INTERVAL, 60)`. A negative
        length makes `time.sleep` raise instead, and nothing is slept. */
    method Backoff() returns (slept: bool)
      modifies this`sleeps
      ensures slept <==> BackoffWait(interval) >= 0
      ensures sleeps == old(sleeps) + if slept then [BackoffWait(interval) as real] else []
    {
      var backoff := BackoffWait(interval);
      slept := backoff >= 0;
      if slept {
        sleeps := sleeps + [backoff as real];
      }
    }

    /** The end of a cycle: sleep `max(APP_INTERVAL - duration, 0)` if that
        is positive and the exporter is still running. */
    method WaitInterval(duration: real)
      modifies this`sleeps
      ensures var w := CycleWait(interval, duration);
              sleeps == old(sleeps) + if w > 0.0 && running then [w] else []
    {
      var sleepTime := CycleWait(interval, duration);
      if sleepTime > 0.0 && running {
        sleeps := sleeps + [sleepTime];
      }
    }

    /** The end of every cycle that reaches it: the interval wait, then a
        signal arriving during that sleep. */
    method FinishCycle(input: CycleInput)
      modifies this`sleeps, this`running
      ensures var w := CycleWait(interval, input.duration);
              sleeps == old(sleeps) + if w > 0.0 && old(running) then [w] else []
      ensures running == (old(running) && !input.signal.StopDuringSleep?)
    {
      WaitInterval(input.duration);
      if input.signal == StopDuringSleep {
        RequestStop();
      }
    }

    /** A cycle whose login failed: sleep the backoff and skip the rest of
        the cycle; if `time.sleep` rejected the backoff, the catch-all
        handler absorbs the error and the cycle ends like any other. */
    method SkipCycle(input: CycleInput)
      requires running && !Login(input.login)
      modifies this`sleeps, this`running, this`requests
      ensures State() == StepSpec(old(State()), interval, input)
    {
      requests := requests + [LoginRequest];
      if input.signal == StopBeforeSleep {
        RequestStop();
      }
      var slept := Backoff();
      if slept {
        if input.signal == StopDuringSleep {
          RequestStop();
        }
      } else {
        FinishCycle(input);
      }
    }

    /** A cycle whose login succeeded: scrape every datapoint, then wait out
        the interval. */
    method ScrapeCycle(input: CycleInput) returns (failed: nat)
      requires Valid() && running && Login(input.login)
      modifies this`gauges, this`sleeps, this`running, this`requests
      ensures Valid()
      ensures State() == StepSpec(old(State()), interval, input)
      ensures failed == Failures(TableIds, input.replies)
    {
      requests := requests + [LoginRequest];
      failed := Scrape(input.replies);
      ScrapeKeepsRegistry(old(gauges), input.replies);
      if input.signal == StopBeforeSleep {
        RequestStop();
      }
      FinishCycle(input);
    }

    /** One pass of `while running`: a stopped exporter starts no cycle;
        otherwise log in and go on by the outcome. */
    method Step(input: CycleInput) returns (report: Report)
      requires Valid()
      modifies this
      ensures Valid()
      ensures State() == StepSpec(old(State()), interval, input)
      ensures report == StepReport(old(running), input)
    {
      if !running {
        report := NotStarted;
      } else if !Login(input.login) {
        SkipCycle(input);
        report := LoginFailed;
      } else {
        var failed := ScrapeCycle(input);
        report := Scraped(failed);
      }
    }

    /** The main loop, fed one input per cycle: it runs cycles while
        `running` holds and inputs remain. Cycle j starts exactly when the
        exporter is still running after the first j inputs. */
    method Run(inputs: seq<CycleInput>) returns (cycles: nat)
      requires Valid()
      modifies this
      ensures Valid()
      ensures State() == RunSpec(old(State()), interval, inputs)
      ensures cycles <= |inputs|
      ensures forall j :: 0 <= j < |inputs| ==>
                (j < cycles <==> RunSpec(old(State()), interval, inputs[..j]).running)
    {
      cycles := 0;
      while cycles < |inputs| && running
        invariant cycles <= |inputs|
        invariant Valid()
        invariant State() == RunSpec(old(State()), interval, inputs[..cycles])
        invariant forall j :: 0 <= j < cycles ==> RunSpec(old(State()), interval, inputs[..j]).running
      {
        assert inputs[..cycles + 1][..cycles] == inputs[..cycles];
        var _ := Step(inputs[cycles]);
        cycles := cycles + 1;
      }
      ghost var start := old(State());
      forall j | cycles <= j <= |inputs|
        ensures RunSpec(start, interval, inputs[..j]) == RunSpec(start, interval, inputs[..cycles])
      {
        if cycles < j {
          NoCycleAfterStop(start, interval, inputs[..cycles], inputs[cycles..j]);
          assert inputs[..cycles] + inputs[cycles..j] == inputs[..j];
        }
      }
      assert inputs[..|inputs|] == inputs;
    }
  }
}
