/** The rate bound for interleaved calls: the limiter steps of a run of the node are a
    trace of the limiter. */
module HostAuthRate {
  import opened Prelude
  import opened MachineInts
  import opened HostAuth
  import RateLimiter

  const LIMIT: Option<nat> := Some(RateLimiter.MAX_TRACKED_HOSTS)

  /** Step number k takes the limiter lock. */
  predicate TakesLimiterLock(calls: seq<HostCall>, schedule: seq<nat>, run: seq<Node>, k: nat)
    requires k < |schedule| && k < |run|
  {
    var id := schedule[k];
    id < |calls| && id < |run[k].phases| && run[k].phases[id].Unseen? && calls[id].limited
  }

  /** The limiter calls among the first n steps. */
  function Trace(calls: seq<HostCall>, schedule: seq<nat>, run: seq<Node>, n: nat): seq<RateLimiter.Call>
    requires n <= |schedule| < |run|
  {
    if n == 0 then []
    else if TakesLimiterLock(calls, schedule, run, n - 1) then
      var call := calls[schedule[n - 1]];
      Trace(calls, schedule, run, n - 1) + [RateLimiter.Call(call.svidHost, call.now)]
    else Trace(calls, schedule, run, n - 1)
  }

  /** The limiter's states before and after each of them. */
  function States(calls: seq<HostCall>, schedule: seq<nat>, run: seq<Node>, n: nat): seq<RateLimiter.Buckets>
    requires n <= |schedule| < |run|
  {
    if n == 0 then [map[]]
    else if TakesLimiterLock(calls, schedule, run, n - 1) then States(calls, schedule, run, n - 1) + [run[n].buckets]
    else States(calls, schedule, run, n - 1)
  }

  lemma {:induction false} TraceIsRun(cfg: RateLimiter.Config, calls: seq<HostCall>, capacity: nat, schedule: seq<nat>,
                                      run: seq<Node>, n: nat)
    requires IsRun(cfg, calls, capacity, schedule, run) && n <= |schedule|
    ensures var trace, states := Trace(calls, schedule, run, n), States(calls, schedule, run, n);
            RateLimiter.IsRun(cfg, LIMIT, trace, states) && states[|trace|] == run[n].buckets
  {
    if n > 0 {
      TraceIsRun(cfg, calls, capacity, schedule, run, n - 1);
    }
  }

  /** How many calls of the host passed the limiter in steps i..j. */
  function Passed(calls: seq<HostCall>, schedule: seq<nat>, run: seq<Node>, host: string, i: nat, j: nat): nat
    requires i <= j <= |schedule| < |run|
    decreases j
  {
    if i == j then 0
    else
      Passed(calls, schedule, run, host, i, j - 1) +
      if && TakesLimiterLock(calls, schedule, run, j - 1) && calls[schedule[j - 1]].svidHost == host
         && schedule[j - 1] < |run[j].phases| && run[j].phases[schedule[j - 1]].InBudget?
      then 1 else 0
  }

  /** A limiter step lets the call pass exactly when the limiter admits it. */
  lemma StepPasses(cfg: RateLimiter.Config, calls: seq<HostCall>, capacity: nat, schedule: seq<nat>, run: seq<Node>,
                   k: nat)
    requires IsRun(cfg, calls, capacity, schedule, run) && k < |schedule| && TakesLimiterLock(calls, schedule, run, k)
    ensures var id := schedule[k];
            && id < |run[k + 1].phases|
            && (run[k + 1].phases[id].InBudget? <==>
                RateLimiter.Answer(cfg, LIMIT, run[k].buckets, RateLimiter.Call(calls[id].svidHost, calls[id].now)).Ok?)
  {
  }

  /** They are those the trace admits. */
  lemma {:induction false} PassedAreAdmitted(cfg: RateLimiter.Config, calls: seq<HostCall>, capacity: nat,
                                             schedule: seq<nat>,
                                             run: seq<Node>, host: string, i: nat, j: nat)
    requires IsRun(cfg, calls, capacity, schedule, run) && i <= j <= |schedule|
    ensures var trace, states := Trace(calls, schedule, run, j), States(calls, schedule, run, j);
            var start := |Trace(calls, schedule, run, i)|;
            && start <= |trace| && |states| == |trace| + 1
            && Passed(calls, schedule, run, host, i, j) ==
               RateLimiter.Admitted(cfg, LIMIT, trace, states, host, start, |trace|)
    decreases j
  {
    TraceIsRun(cfg, calls, capacity, schedule, run, j);
    if i < j {
      PassedAreAdmitted(cfg, calls, capacity, schedule, run, host, i, j - 1);
      if TakesLimiterLock(calls, schedule, run, j - 1) {
        StepPasses(cfg, calls, capacity, schedule, run, j - 1);
        TraceIsRun(cfg, calls, capacity, schedule, run, j - 1);
        var call := calls[schedule[j - 1]];
        AdmittedSnoc(cfg, Trace(calls, schedule, run, j - 1), States(calls, schedule, run, j - 1),
                     RateLimiter.Call(call.svidHost, call.now), run[j].buckets, host, |Trace(calls, schedule, run, i)|);
      }
    }
  }

  lemma AdmittedSnoc(cfg: RateLimiter.Config, a: seq<RateLimiter.Call>, m: seq<RateLimiter.Buckets>,
                     c: RateLimiter.Call,
                     next: RateLimiter.Buckets, host: string, i: nat)
    requires cfg.refill > 0 && i <= |a| && |m| == |a| + 1
    ensures RateLimiter.Admitted(cfg, LIMIT, a + [c], m + [next], host, i, |a| + 1) ==
            RateLimiter.Admitted(cfg, LIMIT, a, m, host, i, |a|) +
            if c.host == host && RateLimiter.Answer(cfg, LIMIT, m[|a|], c).Ok? then 1 else 0
  {
    AdmittedPrefix(cfg, a, m, a + [c], m + [next], host, i, |a|);
  }

  lemma {:induction false} AdmittedPrefix(cfg: RateLimiter.Config, a: seq<RateLimiter.Call>,
                                          m: seq<RateLimiter.Buckets>,
                                          b: seq<RateLimiter.Call>, m': seq<RateLimiter.Buckets>, host: string,
                                            i: nat, j: nat)
    requires cfg.refill > 0 && i <= j <= |a| <= |m| && a <= b && m <= m' && |b| <= |m'|
    ensures RateLimiter.Admitted(cfg, LIMIT, a, m, host, i, j) == RateLimiter.Admitted(cfg, LIMIT, b, m', host, i, j)
    decreases j
  {
    if i < j {
      AdmittedPrefix(cfg, a, m, b, m', host, i, j - 1);
    }
  }

  lemma {:induction false} TraceGrows(calls: seq<HostCall>, schedule: seq<nat>, run: seq<Node>, i: nat, j: nat)
    requires i <= j <= |schedule| < |run|
    ensures Trace(calls, schedule, run, i) <= Trace(calls, schedule, run, j)
    decreases j
  {
    if i < j {
      TraceGrows(calls, schedule, run, i, j - 1);
    }
  }

  lemma MonotonePrefix(a: seq<RateLimiter.Call>, b: seq<RateLimiter.Call>)
    requires a <= b && RateLimiter.Monotone(b)
    ensures RateLimiter.Monotone(a)
  {
  }

  /** The trace between two limiter steps begins and ends with their calls. */
  lemma TraceEnds(calls: seq<HostCall>, schedule: seq<nat>, run: seq<Node>, i: nat, j: nat)
    requires i < j <= |schedule| < |run| && TakesLimiterLock(calls, schedule, run, i) &&
             TakesLimiterLock(calls, schedule, run, j - 1)
    ensures var trace, start := Trace(calls, schedule, run, j), |Trace(calls, schedule, run, i)|;
            && start < |trace| && trace[start].now == calls[schedule[i]].now
            && trace[|trace| - 1].now == calls[schedule[j - 1]].now
  {
    TraceGrows(calls, schedule, run, i + 1, j);
    var trace, start := Trace(calls, schedule, run, j), |Trace(calls, schedule, run, i)|;
    assert trace[start] == Trace(calls, schedule, run, i + 1)[start];
  }

  /** No more than a burst and what accrues in the time: admitted * period <= burst *
      period + burst * time. */
  predicate WithinRate(burst: nat, period: nat, admitted: nat, time: int) {
    admitted * period <= burst * period + burst * time
  }

  lemma RunWithinRate(cfg: RateLimiter.Config, burst: nat, period: nat, trace: seq<RateLimiter.Call>,
                      states: seq<RateLimiter.Buckets>, host: string, start: nat, admitted: nat, time: int)
    requires RateLimiter.IsConfig(cfg, burst, period) && RateLimiter.Monotone(trace)
    requires RateLimiter.IsRun(cfg, LIMIT, trace, states) && start < |trace|
    requires admitted == RateLimiter.Admitted(cfg, LIMIT, trace, states, host, start, |trace|)
    requires time == trace[|trace| - 1].now - trace[start].now
    ensures WithinRate(burst, period, admitted, time)
  {
    RateLimiter.RateBound(cfg, burst, period, LIMIT, trace, states, host, start, |trace|);
  }

  lemma TraceBound(cfg: RateLimiter.Config, burst: nat, period: nat, calls: seq<HostCall>, capacity: nat,
                   schedule: seq<nat>, run: seq<Node>, host: string, start: nat, j: nat, admitted: nat,
                   time: int)
    requires RateLimiter.IsConfig(cfg, burst, period) && IsRun(cfg, calls, capacity, schedule, run) && j <= |schedule|
    requires RateLimiter.Monotone(Trace(calls, schedule, run, |schedule|)) && start < |Trace(calls, schedule, run, j)|
    requires var trace, states := Trace(calls, schedule, run, j), States(calls, schedule, run, j);
             |states| == |trace| + 1 &&
             admitted == RateLimiter.Admitted(cfg, LIMIT, trace, states, host, start, |trace|) &&
             time == trace[|trace| - 1].now - trace[start].now
    ensures WithinRate(burst, period, admitted, time)
  {
    var trace, states := Trace(calls, schedule, run, j), States(calls, schedule, run, j);
    TraceIsRun(cfg, calls, capacity, schedule, run, j);
    TraceGrows(calls, schedule, run, j, |schedule|);
    MonotonePrefix(trace, Trace(calls, schedule, run, |schedule|));
    RunWithinRate(cfg, burst, period, trace, states, host, start, admitted, time);
  }

  lemma PassedBound(cfg: RateLimiter.Config, burst: nat, period: nat, calls: seq<HostCall>, capacity: nat,
                    schedule: seq<nat>, run: seq<Node>, host: string, i: nat, j: nat)
    requires RateLimiter.IsConfig(cfg, burst, period) && IsRun(cfg, calls, capacity, schedule, run) &&
             i <= j <= |schedule|
    requires RateLimiter.Monotone(Trace(calls, schedule, run, |schedule|))
    requires |Trace(calls, schedule, run, i)| < |Trace(calls, schedule, run, j)|
    ensures var trace, start := Trace(calls, schedule, run, j), |Trace(calls, schedule, run, i)|;
            WithinRate(burst, period, Passed(calls, schedule, run, host, i, j),
              trace[|trace| - 1].now - trace[start].now)
  {
    var trace, start := Trace(calls, schedule, run, j), |Trace(calls, schedule, run, i)|;
    PassedAreAdmitted(cfg, calls, capacity, schedule, run, host, i, j);
    TraceBound(cfg, burst, period, calls, capacity, schedule, run, host, start, j,
               Passed(calls, schedule, run, host, i, j), trace[|trace| - 1].now - trace[start].now);
  }

  /** In every interleaving, with the limiter lock taken in clock order: from one limiter
      step to another, the calls of a host that pass stay within a burst and the rate. */
  lemma InterleavedRateBound(cfg: RateLimiter.Config, burst: nat, period: nat, calls: seq<HostCall>, capacity: nat,
                             schedule: seq<nat>, run: seq<Node>, host: string, i: nat, j: nat)
    requires RateLimiter.IsConfig(cfg, burst, period) && IsRun(cfg, calls, capacity, schedule, run)
    requires RateLimiter.Monotone(Trace(calls, schedule, run, |schedule|))
    requires i < j <= |schedule| && TakesLimiterLock(calls, schedule, run, i) &&
             TakesLimiterLock(calls, schedule, run, j - 1)
    ensures WithinRate(burst, period, Passed(calls, schedule, run, host, i, j),
                       calls[schedule[j - 1]].now - calls[schedule[i]].now)
  {
    TraceEnds(calls, schedule, run, i, j);
    PassedBound(cfg, burst, period, calls, capacity, schedule, run, host, i, j);
  }
}
