/** A token bucket for each host. It starts full, holds one period's calls, and gains with
    every second; counting in units of a call's cost keeps all of it in whole numbers. */
module RateLimiter {
  import opened Prelude
  import opened MachineInts

  type Host = string

  datatype Bucket = Bucket(units: U64, last: I64)

  /** Bucket size, units per second, and units per call. */
  datatype Config = Config(capacity: U64, refill: U64, cost: U64)

  type Buckets = map<Host, Bucket>

  const MAX_TRACKED_HOSTS: nat := 65_536

  /** A limiter of `calls` per `period` seconds, both taken as at least one. */
  predicate IsConfig(cfg: Config, calls: nat, period: nat) {
    && 1 <= calls <= U32_MAX && 1 <= period <= U32_MAX
    && cfg.capacity == calls * period && cfg.refill == calls && cfg.cost == period
  }

  ghost predicate Good(cfg: Config) {
    exists calls: nat, period: nat :: IsConfig(cfg, calls, period)
  }

  lemma ProductFits(calls: nat, period: nat)
    requires 1 <= calls <= U32_MAX && 1 <= period <= U32_MAX
    ensures 1 <= calls * period <= U64_MAX && period <= calls * period
  {
    assert calls * period <= U32_MAX * period <= U32_MAX * U32_MAX;
    assert (calls - 1) * period >= 0;
  }

  lemma GoodConfig(cfg: Config)
    requires Good(cfg)
    ensures 1 <= cfg.refill && 1 <= cfg.cost <= cfg.capacity
    ensures cfg.capacity == cfg.refill * cfg.cost && cfg.cost <= U32_MAX
  {
    var calls: nat, period: nat :| IsConfig(cfg, calls, period);
    ProductFits(calls, period);
  }

  // ---------------------------------------------------------------- one bucket

  function Refilled(cfg: Config, b: Bucket, now: I64): U64 {
    var elapsed := Max(0, SubI64(now, b.last));
    Min(AddU64(b.units, MulU64(elapsed, cfg.refill)), cfg.capacity)
  }

  /** Saturation never shows: a refill is the exact linear one, capped. */
  lemma RefilledExact(cfg: Config, b: Bucket, now: I64)
    requires Good(cfg) && b.last <= now
    ensures Refilled(cfg, b, now) == Min(cfg.capacity, b.units + (now - b.last) * cfg.refill)
  {
    GoodConfig(cfg);
    var gap := now - b.last;
    if gap > I64_MAX {
      MulMono(cfg.cost, I64_MAX, cfg.refill);
      MulMono(I64_MAX, gap, cfg.refill);
      MulComm(cfg.cost, cfg.refill);
    }
    MulMono(0, gap, cfg.refill);
  }

  lemma MulMono(a: int, b: int, c: nat)
    requires a <= b
    ensures a * c <= b * c
  {
    assert (b - a) * c >= 0;
  }

  lemma Distribute(a: int, b: int, c: int)
    ensures (a + b) * c == a * c + b * c
  {
  }

  lemma MulComm(a: int, b: int)
    ensures a * b == b * a
  {
  }

  // ---------------------------------------------------------------- the limiter

  function Retained(cfg: Config, m: Buckets, now: I64): Buckets {
    map h | h in m && Refilled(cfg, m[h], now) < cfg.capacity :: m[h]
  }

  /** Division rounding up. */
  function CeilDiv(a: nat, b: nat): nat
    requires b > 0
  {
    if a == 0 then 0 else if a <= b then 1 else 1 + CeilDiv(a - b, b)
  }

  /** Spend one call for a host whose bucket is `b`. */
  function Spend(cfg: Config, b: Bucket, now: I64): (Bucket, Result<(), nat>)
    requires cfg.refill > 0
  {
    var units := Refilled(cfg, b, now);
    var last := Max(now, b.last);
    if units >= cfg.cost then (Bucket(units - cfg.cost, last), Ok(()))
    else (Bucket(units, last), Err(Max(CeilDiv(cfg.cost - units, cfg.refill), 1)))
  }

  /** One `check`: `limit` is the number of tracked hosts above which full buckets
      are dropped (None: never). */
  function Checked(cfg: Config, limit: Option<nat>, m: Buckets, host: Host, now: I64): (Buckets, Result<(), nat>)
    requires cfg.refill > 0
  {
    var kept := if limit.Some? && |m| >= limit.value && host !in m then Retained(cfg, m, now) else m;
    var b := if host in kept then kept[host] else Bucket(cfg.capacity, now);
    var (b', r) := Spend(cfg, b, now);
    (kept[host := b'], r)
  }

  class HostRateLimiter {
    const cfg: Config
    var buckets: Buckets

    constructor (calls: U32, period: U32)
      ensures IsConfig(cfg, Max(calls, 1), Max(period, 1)) && Good(cfg) && buckets == map[]
    {
      var c: nat, p: nat := Max(calls, 1), Max(period, 1);
      ProductFits(c, p);
      cfg := Config(c * p, c, p);
      buckets := map[];
      new;
      assert IsConfig(cfg, c, p);
    }

    method Check(host: Host, now: I64) returns (r: Result<(), nat>)
      requires Good(cfg)
      modifies this
      ensures cfg.refill > 0
      ensures (buckets, r) == Checked(cfg, Some(MAX_TRACKED_HOSTS), old(buckets), host, now)
    {
      GoodConfig(cfg);
      if |buckets| >= MAX_TRACKED_HOSTS && host !in buckets {
        buckets := map h | h in buckets && Refilled(cfg, buckets[h], now) < cfg.capacity :: buckets[h];
      }
      if host !in buckets {
        buckets := buckets[host := Bucket(cfg.capacity, now)];
      }
      var b := buckets[host];
      var units := Refilled(cfg, b, now);
      var last := Max(now, b.last);
      if units >= cfg.cost {
        buckets := buckets[host := Bucket(units - cfg.cost, last)];
        r := Ok(());
      } else {
        buckets := buckets[host := Bucket(units, last)];
        r := Err(Max(CeilDiv(cfg.cost - units, cfg.refill), 1));
      }
      assert buckets == Checked(cfg, Some(MAX_TRACKED_HOSTS), old(buckets), host, now).0;
    }
  }

  // ------------------------------------------------------------------ whole runs

  datatype Call = Call(host: Host, now: I64)

  ghost predicate Monotone(calls: seq<Call>) {
    forall i, j | 0 <= i <= j < |calls| :: calls[i].now <= calls[j].now
  }

  /** The bucket states of a run, one more than its calls. */
  ghost predicate IsRun(cfg: Config, limit: Option<nat>, calls: seq<Call>, run: seq<Buckets>) {
    && cfg.refill > 0
    && |run| == |calls| + 1 && run[0] == map[]
    && forall i | 0 <= i < |calls| :: run[i + 1] == Checked(cfg, limit, run[i], calls[i].host, calls[i].now).0
  }

  function Answer(cfg: Config, limit: Option<nat>, m: Buckets, c: Call): Result<(), nat>
    requires cfg.refill > 0
  {
    Checked(cfg, limit, m, c.host, c.now).1
  }

  /** What a host has to spend at `now`: an untracked host has a full bucket. */
  function Level(cfg: Config, m: Buckets, host: Host, now: I64): nat {
    if host in m then Refilled(cfg, m[host], now) else cfg.capacity
  }

  /** Every bucket was last touched no later than `now`. */
  ghost predicate Settled(cfg: Config, m: Buckets, now: I64) {
    forall h | h in m :: m[h].last <= now && m[h].units <= cfg.capacity
  }

  /** One check, seen through levels: the caller pays, everyone else is untouched,
      now and at any later time. */
  lemma LevelAfter(cfg: Config, limit: Option<nat>, m: Buckets, c: Call, host: Host, later: I64)
    requires Good(cfg) && Settled(cfg, m, c.now) && c.now <= later
    ensures cfg.refill > 0
    ensures var m' := Checked(cfg, limit, m, c.host, c.now).0;
            var before := Level(cfg, m, c.host, c.now);
            var paid := if before >= cfg.cost then before - cfg.cost else before;
            && Settled(cfg, m', c.now)
            && (Answer(cfg, limit, m, c).Ok? <==> before >= cfg.cost)
            && Level(cfg, m', c.host, later) == Min(cfg.capacity, paid + (later - c.now) * cfg.refill)
            && (host != c.host ==> Level(cfg, m', host, later) == Level(cfg, m, host, later))
  {
    GoodConfig(cfg);
    var (m', r) := Checked(cfg, limit, m, c.host, c.now);
    if c.host in m {
      RefilledExact(cfg, m[c.host], c.now);
    }
    RefilledExact(cfg, m'[c.host], later);
    FreshBucketIsFull(cfg, c.now);
    if host != c.host && host in m && host !in m' {
      RefillGrows(cfg, m[host], c.now, later);
    }
  }

  lemma FreshBucketIsFull(cfg: Config, now: I64)
    requires Good(cfg)
    ensures Refilled(cfg, Bucket(cfg.capacity, now), now) == cfg.capacity
  {
    RefilledExact(cfg, Bucket(cfg.capacity, now), now);
  }

  lemma RefillGrows(cfg: Config, b: Bucket, now: I64, later: I64)
    requires Good(cfg) && b.last <= now <= later
    ensures Refilled(cfg, b, now) <= Refilled(cfg, b, later)
    ensures Refilled(cfg, b, later) <= Refilled(cfg, b, now) + (later - now) * cfg.refill
  {
    RefilledExact(cfg, b, now);
    RefilledExact(cfg, b, later);
    MulMono(now - b.last, later - b.last, cfg.refill);
    MulMono(0, later - now, cfg.refill);
    Distribute(now - b.last, later - now, cfg.refill);
  }

  lemma {:induction false} RunSettled(cfg: Config, limit: Option<nat>, calls: seq<Call>, run: seq<Buckets>, i: nat)
    requires Good(cfg) && Monotone(calls) && IsRun(cfg, limit, calls, run) && i < |calls|
    ensures Settled(cfg, run[i], calls[i].now)
  {
    if i > 0 {
      RunSettled(cfg, limit, calls, run, i - 1);
      LevelAfter(cfg, limit, run[i - 1], calls[i - 1], calls[i - 1].host, calls[i - 1].now);
    }
  }

  // ------------------------------------------------------------------ rate bound

  /** How many of the calls i..j the host had admitted. */
  function Admitted(cfg: Config, limit: Option<nat>, calls: seq<Call>, run: seq<Buckets>, host: Host, i: nat,
                    j: nat): nat
    requires cfg.refill > 0 && i <= j <= |calls| <= |run|
    decreases j
  {
    if i == j then 0
    else
      var c := calls[j - 1];
      Admitted(cfg, limit, calls, run, host, i, j - 1) +
      if c.host == host && Answer(cfg, limit, run[j - 1], c).Ok? then 1 else 0
  }

  /** No check lets a host's level rise faster than the refill, less what it spent. */
  lemma StepPotential(cfg: Config, limit: Option<nat>, m: Buckets, c: Call, host: Host, later: I64)
    requires Good(cfg) && Settled(cfg, m, c.now) && c.now <= later
    ensures cfg.refill > 0
    ensures var spent := if c.host == host && Answer(cfg, limit, m, c).Ok? then cfg.cost else 0;
            Level(cfg, Checked(cfg, limit, m, c.host, c.now).0, host, later) + spent <=
            Level(cfg, m, host, c.now) + (later - c.now) * cfg.refill
  {
    GoodConfig(cfg);
    LevelAfter(cfg, limit, m, c, host, later);
    MulMono(0, later - c.now, cfg.refill);
    if host != c.host && host in m {
      RefillGrows(cfg, m[host], c.now, later);
    }
  }

  lemma {:induction false} Potential(cfg: Config, limit: Option<nat>, calls: seq<Call>, run: seq<Buckets>, host: Host,
                                     i: nat, j: nat, later: I64)
    requires Good(cfg) && Monotone(calls) && IsRun(cfg, limit, calls, run)
    requires i < j <= |calls| && calls[j - 1].now <= later
    ensures Level(cfg, run[j], host, later) + Admitted(cfg, limit, calls, run, host, i, j) * cfg.cost <=
            Level(cfg, run[i], host, calls[i].now) + (later - calls[i].now) * cfg.refill
    decreases j
  {
    var k := j - 1;
    var u := calls[k].now;
    RunSettled(cfg, limit, calls, run, k);
    StepPotential(cfg, limit, run[k], calls[k], host, later);
    var a := Admitted(cfg, limit, calls, run, host, i, k);
    Distribute(a, 1, cfg.cost);
    if i < k {
      Potential(cfg, limit, calls, run, host, i, k, u);
      Distribute(u - calls[i].now, later - u, cfg.refill);
    }
  }

  /** In any stretch of a run lasting T seconds a host is admitted at most
      calls + calls * T / period times, whatever the other hosts do. */
  lemma RateBound(cfg: Config, calls: nat, period: nat, limit: Option<nat>, trace: seq<Call>, run: seq<Buckets>,
                  host: Host, i: nat, j: nat)
    requires IsConfig(cfg, calls, period) && Monotone(trace) && IsRun(cfg, limit, trace, run) && i < j <= |trace|
    ensures Admitted(cfg, limit, trace, run, host, i, j) * period <=
            calls * period + calls * (trace[j - 1].now - trace[i].now)
  {
    RunSettled(cfg, limit, trace, run, i);
    Potential(cfg, limit, trace, run, host, i, j, trace[j - 1].now);
    MulComm(calls, trace[j - 1].now - trace[i].now);
  }

  // ------------------------------------------------------- forgetting full buckets

  /** Two bucket maps that no call at or after `now` can tell apart. */
  ghost predicate SameLevels(cfg: Config, a: Buckets, b: Buckets, now: I64) {
    forall host, t: I64 | now <= t :: Level(cfg, a, host, t) == Level(cfg, b, host, t)
  }

  lemma StepForgets(cfg: Config, limit: Option<nat>, limit': Option<nat>, a: Buckets, b: Buckets, c: Call)
    requires Good(cfg) && Settled(cfg, a, c.now) && Settled(cfg, b, c.now) && SameLevels(cfg, a, b, c.now)
    ensures cfg.refill > 0 && Answer(cfg, limit, a, c) == Answer(cfg, limit', b, c)
    ensures SameLevels(cfg, Checked(cfg, limit, a, c.host, c.now).0, Checked(cfg, limit', b, c.host, c.now).0, c.now)
  {
    GoodConfig(cfg);
    FreshBucketIsFull(cfg, c.now);
    assert Level(cfg, a, c.host, c.now) == Level(cfg, b, c.host, c.now);
    forall host, t: I64 | c.now <= t
      ensures Level(cfg, Checked(cfg, limit, a, c.host, c.now).0, host, t) ==
              Level(cfg, Checked(cfg, limit', b, c.host, c.now).0, host, t)
    {
      LevelAfter(cfg, limit, a, c, host, t);
      LevelAfter(cfg, limit', b, c, host, t);
      assert Level(cfg, a, host, t) == Level(cfg, b, host, t);
    }
  }

  /** A limiter that drops full buckets, above any number of hosts, answers every
      call of every run as one that never drops any. */
  lemma {:induction false} ForgettingIsUnobservable(cfg: Config, limit: nat, calls: seq<Call>, run: seq<Buckets>,
                                                    ref: seq<Buckets>, i: nat)
    requires Good(cfg) && Monotone(calls) && i < |calls|
    requires IsRun(cfg, Some(limit), calls, run) && IsRun(cfg, None, calls, ref)
    ensures Answer(cfg, Some(limit), run[i], calls[i]) == Answer(cfg, None, ref[i], calls[i])
    ensures SameLevels(cfg, run[i], ref[i], calls[i].now)
  {
    if i > 0 {
      ForgettingIsUnobservable(cfg, limit, calls, run, ref, i - 1);
      RunSettled(cfg, Some(limit), calls, run, i - 1);
      RunSettled(cfg, None, calls, ref, i - 1);
      StepForgets(cfg, Some(limit), None, run[i - 1], ref[i - 1], calls[i - 1]);
    }
    RunSettled(cfg, Some(limit), calls, run, i);
    RunSettled(cfg, None, calls, ref, i);
    StepForgets(cfg, Some(limit), None, run[i], ref[i], calls[i]);
  }

  // ----------------------------------------------------------------- exact waits

  lemma {:induction false} CeilDivExact(a: nat, b: nat, t: nat)
    requires b > 0
    ensures t >= CeilDiv(a, b) <==> t * b >= a
    decreases a
  {
    if a == 0 {
      MulMono(0, t, b);
    } else if t == 0 {
    } else if a <= b {
      MulMono(1, t, b);
    } else {
      CeilDivExact(a - b, b, t - 1);
      Distribute(t - 1, 1, b);
    }
  }

  /** The host's calls strictly between i and j were all refused. */
  ghost predicate RefusedBetween(cfg: Config, limit: Option<nat>, calls: seq<Call>, run: seq<Buckets>, host: Host,
                                 i: nat, j: nat)
    requires cfg.refill > 0 && |calls| <= |run|
  {
    forall k | i < k < j && k < |calls| && calls[k].host == host :: Answer(cfg, limit, run[k], calls[k]).Err?
  }

  /** While a host is only refused, its level is the plain refill: refusals cost nothing. */
  lemma {:induction false} RefusalsCostNothing(cfg: Config, limit: Option<nat>, calls: seq<Call>, run: seq<Buckets>,
                                               i: nat, j: nat, later: I64)
    requires Good(cfg) && Monotone(calls) && IsRun(cfg, limit, calls, run)
    requires i < j <= |calls| && calls[j - 1].now <= later
    requires Answer(cfg, limit, run[i], calls[i]).Err? && RefusedBetween(cfg, limit, calls, run, calls[i].host, i, j)
    ensures Level(cfg, run[j], calls[i].host, later) ==
            Min(cfg.capacity, Level(cfg, run[i], calls[i].host, calls[i].now) + (later - calls[i].now) * cfg.refill)
    decreases j
  {
    GoodConfig(cfg);
    var k := j - 1;
    var host, u := calls[i].host, calls[k].now;
    RunSettled(cfg, limit, calls, run, k);
    LevelAfter(cfg, limit, run[k], calls[k], host, later);
    if i < k {
      RefusalsCostNothing(cfg, limit, calls, run, i, k, later);
      if calls[k].host == host {
        RefusalsCostNothing(cfg, limit, calls, run, i, k, u);
        Distribute(u - calls[i].now, later - u, cfg.refill);
      }
    }
  }

  function Wait(cfg: Config, level: nat): nat
    requires cfg.refill > 0 && level < cfg.cost
  {
    Max(CeilDiv(cfg.cost - level, cfg.refill), 1)
  }

  /** The answer depends on the caller's level alone. */
  lemma AnswerByLevel(cfg: Config, limit: Option<nat>, m: Buckets, c: Call, level: nat)
    requires Good(cfg) && Settled(cfg, m, c.now) && level == Level(cfg, m, c.host, c.now)
    ensures cfg.refill > 0
    ensures Answer(cfg, limit, m, c).Ok? <==> level >= cfg.cost
    ensures Answer(cfg, limit, m, c).Err? ==> Answer(cfg, limit, m, c).error == Wait(cfg, level)
  {
    GoodConfig(cfg);
    FreshBucketIsFull(cfg, c.now);
  }

  lemma WaitReached(cfg: Config, level: nat, t: nat)
    requires 0 < cfg.refill && level < cfg.cost <= cfg.capacity
    ensures Min(cfg.capacity, level + t * cfg.refill) >= cfg.cost <==> t >= Wait(cfg, level)
  {
    CeilDivExact(cfg.cost - level, cfg.refill, t);
    CeilDivExact(cfg.cost - level, cfg.refill, 0);
  }

  /** After `Err(w)`: the host's next call is refused before now + w, and admitted
      from now + w on, whatever refused retries came in between. */
  lemma NextAfterWait(cfg: Config, limit: Option<nat>, calls: seq<Call>, run: seq<Buckets>, i: nat, j: nat, w: nat)
    requires Good(cfg) && Monotone(calls) && IsRun(cfg, limit, calls, run)
    requires i < j < |calls| && calls[j].host == calls[i].host
    requires Answer(cfg, limit, run[i], calls[i]) == Err(w) &&
             RefusedBetween(cfg, limit, calls, run, calls[i].host, i, j)
    ensures Answer(cfg, limit, run[j], calls[j]).Ok? <==> calls[j].now >= calls[i].now + w
  {
    var host, t0, t := calls[i].host, calls[i].now, calls[j].now;
    var l0, l := Level(cfg, run[i], host, t0), Level(cfg, run[j], host, t);
    assert l0 < cfg.cost && w == Wait(cfg, l0) by {
      RunSettled(cfg, limit, calls, run, i);
      AnswerByLevel(cfg, limit, run[i], calls[i], l0);
    }
    assert Answer(cfg, limit, run[j], calls[j]).Ok? <==> l >= cfg.cost by {
      RunSettled(cfg, limit, calls, run, j);
      AnswerByLevel(cfg, limit, run[j], calls[j], l);
    }
    assert l == Min(cfg.capacity, l0 + (t - t0) * cfg.refill) by {
      RefusalsCostNothing(cfg, limit, calls, run, i, j, t);
    }
    assert t >= t0 + w <==> l >= cfg.cost by {
      GoodConfig(cfg);
      WaitReached(cfg, l0, t - t0);
    }
  }

  /** No retry before now + w is admitted, in any run. */
  lemma {:induction false} NoneBeforeWait(cfg: Config, limit: Option<nat>, calls: seq<Call>, run: seq<Buckets>,
                                          i: nat, j: nat, w: nat)
    requires Good(cfg) && Monotone(calls) && IsRun(cfg, limit, calls, run)
    requires i < j < |calls| && calls[j].host == calls[i].host
    requires Answer(cfg, limit, run[i], calls[i]) == Err(w) && calls[j].now < calls[i].now + w
    ensures Answer(cfg, limit, run[j], calls[j]).Err?
    decreases j
  {
    forall k | i < k < j && calls[k].host == calls[i].host
      ensures Answer(cfg, limit, run[k], calls[k]).Err?
    {
      NoneBeforeWait(cfg, limit, calls, run, i, k, w);
    }
    NextAfterWait(cfg, limit, calls, run, i, j, w);
  }
}
