/** The rate bound when the clock may step back: the time that counts is then the
    spread of the host's own readings. */
module RateAnyClock {
  import opened Prelude
  import opened MachineInts
  import opened RateLimiter

  /** A refill is at most the linear one, and nothing when the clock stepped back. */
  lemma RefilledAtMost(cfg: Config, b: Bucket, now: I64)
    ensures Refilled(cfg, b, now) <= cfg.capacity
    ensures Refilled(cfg, b, now) <= b.units + (Max(now, b.last) - b.last) * cfg.refill
  {
    var elapsed := Max(0, SubI64(now, b.last));
    assert 0 <= elapsed <= Max(now, b.last) - b.last;
    MulMono(elapsed, Max(now, b.last) - b.last, cfg.refill);
  }

  /** Between calls i and j the host's bucket is not dropped. */
  ghost predicate KeptBetween(run: seq<Buckets>, host: Host, i: nat, j: nat) {
    forall k | i <= k < j && k + 1 < |run| && host in run[k] :: host in run[k + 1]
  }

  ghost predicate ReadsWithin(calls: seq<Call>, host: Host, i: nat, j: nat, lo: int, hi: int) {
    forall k | i <= k < j && k < |calls| && calls[k].host == host :: lo <= calls[k].now <= hi
  }

  /** What the host spent since its bucket was last at `start`, on top of what it has. */
  ghost predicate SpentFrom(cfg: Config, b: Bucket, admitted: nat, start: int, lo: int, hi: int) {
    && lo <= start <= b.last <= Max(hi, start)
    && admitted * cfg.cost + b.units <= cfg.capacity + (b.last - start) * cfg.refill
  }

  /** One call on the host's bucket, however its reading lies to the last one. */
  lemma SpendKeeps(cfg: Config, b: Bucket, now: I64, admitted: nat, start: int, lo: int, hi: int) returns (from: int)
    requires cfg.refill > 0 && lo <= now <= hi
    requires admitted > 0 ==> SpentFrom(cfg, b, admitted, start, lo, hi)
    ensures var (b', r) := Spend(cfg, b, now);
            SpentFrom(cfg, b', admitted + (if r.Ok? then 1 else 0), from, lo, hi)
  {
    var (b', r) := Spend(cfg, b, now);
    RefilledAtMost(cfg, b, now);
    from := if admitted > 0 then start else b'.last;
    Distribute(admitted, 1, cfg.cost);
    Distribute(b.last - from, b'.last - b.last, cfg.refill);
    assert b'.last == Max(now, b.last);
    assert 0 * cfg.refill == 0 && 0 * cfg.cost == 0;
  }

  lemma CheckKeeps(cfg: Config, limit: Option<nat>, m: Buckets, c: Call, host: Host, admitted: nat, start: int,
                   lo: int, hi: int) returns (from: int)
    requires cfg.refill > 0 && (c.host == host ==> lo <= c.now <= hi)
    requires host in m ==> host in Checked(cfg, limit, m, c.host, c.now).0
    requires admitted > 0 ==> host in m && SpentFrom(cfg, m[host], admitted, start, lo, hi)
    ensures var m' := Checked(cfg, limit, m, c.host, c.now).0;
            var a := admitted + if c.host == host && Answer(cfg, limit, m, c).Ok? then 1 else 0;
            a > 0 ==> host in m' && SpentFrom(cfg, m'[host], a, from, lo, hi)
  {
    if c.host == host {
      var b := if host in m then m[host] else Bucket(cfg.capacity, c.now);
      from := SpendKeeps(cfg, b, c.now, admitted, start, lo, hi);
    } else {
      from := start;
    }
  }

  lemma {:induction false} SpentBetween(cfg: Config, limit: Option<nat>, calls: seq<Call>, run: seq<Buckets>,
                                        host: Host, i: nat, j: nat, lo: int, hi: int) returns (start: int)
    requires IsRun(cfg, limit, calls, run) && i <= j <= |calls|
    requires KeptBetween(run, host, i, j) && ReadsWithin(calls, host, i, j, lo, hi)
    ensures var a := Admitted(cfg, limit, calls, run, host, i, j);
            a > 0 ==> host in run[j] && SpentFrom(cfg, run[j][host], a, start, lo, hi)
    decreases j
  {
    start := lo;
    if i < j {
      var k := j - 1;
      start := SpentBetween(cfg, limit, calls, run, host, i, k, lo, hi);
      assert run[k + 1] == Checked(cfg, limit, run[k], calls[k].host, calls[k].now).0;
      var a := Admitted(cfg, limit, calls, run, host, i, k);
      start := CheckKeeps(cfg, limit, run[k], calls[k], host, a, start, lo, hi);
    }
  }

  /** Under any clock: among calls in which the host's own readings spread over T seconds
      and its bucket is not dropped, it is admitted at most calls + calls * T / period times. */
  lemma RateBoundAnyClock(cfg: Config, calls: nat, period: nat, limit: Option<nat>, trace: seq<Call>,
                          run: seq<Buckets>, host: Host, i: nat, j: nat, lo: int, hi: int)
    requires IsConfig(cfg, calls, period) && IsRun(cfg, limit, trace, run) && i <= j <= |trace| && lo <= hi
    requires KeptBetween(run, host, i, j) && ReadsWithin(trace, host, i, j, lo, hi)
    ensures Admitted(cfg, limit, trace, run, host, i, j) * period <= calls * period + calls * (hi - lo)
  {
    var a := Admitted(cfg, limit, trace, run, host, i, j);
    var start := SpentBetween(cfg, limit, trace, run, host, i, j, lo, hi);
    MulMono(0, hi - lo, calls);
    if a > 0 {
      MulMono(run[j][host].last - start, hi - lo, calls);
    } else {
      MulMono(0, calls, period);
    }
    MulComm(calls, hi - lo);
  }

  /** A limiter below its limit of tracked hosts drops no bucket. */
  lemma KeptBelowTheLimit(cfg: Config, limit: Option<nat>, calls: seq<Call>, run: seq<Buckets>, host: Host, i: nat,
                          j: nat)
    requires IsRun(cfg, limit, calls, run) && i <= j <= |calls|
    requires limit.Some? ==> forall k | i <= k < j :: |run[k]| < limit.value
    ensures KeptBetween(run, host, i, j)
  {
    forall k | i <= k < j && k + 1 < |run| && host in run[k]
      ensures host in run[k + 1]
    {
      assert run[k + 1] == Checked(cfg, limit, run[k], calls[k].host, calls[k].now).0;
    }
  }

  const ONE_IN_TEN: Config := Config(10, 1, 10)

  lemma FreshCall(m: Buckets, h: Host, now: I64)
    requires h !in m && |m| == 0
    ensures Checked(ONE_IN_TEN, Some(1), m, h, now) == (map[h := Bucket(0, now)], Ok(()))
  {
    assert m == map[];
    assert Refilled(ONE_IN_TEN, Bucket(10, now), now) == 10;
  }

  /** At the limit, a call of another host drops a bucket that is full by that call's reading. */
  lemma DroppingCall(m: Buckets, a: Host, b: Host, t: I64, now: I64)
    requires a != b && m == map[a := Bucket(0, t)] && t + 10 <= now
    ensures Checked(ONE_IN_TEN, Some(1), m, b, now) == (map[b := Bucket(0, now)], Ok(()))
  {
    assert Refilled(ONE_IN_TEN, Bucket(0, t), now) == 10;
    assert Retained(ONE_IN_TEN, m, now) == map[];
    assert Refilled(ONE_IN_TEN, Bucket(10, now), now) == 10;
  }

  lemma SteppedBackCall(m: Buckets, a: Host, b: Host, now: I64, t: I64)
    requires a != b && m == map[b := Bucket(0, t)] && now <= t
    ensures Checked(ONE_IN_TEN, Some(1), m, a, now) == (map[b := Bucket(0, t), a := Bucket(0, now)], Ok(()))
  {
    assert Refilled(ONE_IN_TEN, Bucket(0, t), now) == 0;
    assert Retained(ONE_IN_TEN, m, now) == m;
    assert Refilled(ONE_IN_TEN, Bucket(10, now), now) == 10;
  }

  /** Only then: at the limit, another host's far reading drops a bucket that is empty by
      the host's own clock, and the host is admitted twice in the same second. */
  lemma DroppedByAnotherClock(a: Host, b: Host) returns (trace: seq<Call>, run: seq<Buckets>)
    requires a != b
    ensures IsConfig(ONE_IN_TEN, 1, 10) && IsRun(ONE_IN_TEN, Some(1), trace, run) && |trace| == 3
    ensures ReadsWithin(trace, a, 0, 3, 20, 20) && !KeptBetween(run, a, 0, 3)
    ensures Admitted(ONE_IN_TEN, Some(1), trace, run, a, 0, 3) == 2
  {
    trace := [Call(a, 20), Call(b, 30), Call(a, 20)];
    run := [map[], map[a := Bucket(0, 20)], map[b := Bucket(0, 30)],
            map[b := Bucket(0, 30), a := Bucket(0, 20)]];
    FreshCall(run[0], a, 20);
    DroppingCall(run[1], a, b, 20, 30);
    SteppedBackCall(run[2], a, b, 20, 30);
    assert a in run[1] && a !in run[2];
    AdmittedAre(trace, run, a);
  }

  lemma AdmittedAre(trace: seq<Call>, run: seq<Buckets>, a: Host)
    requires |trace| == 3 && |run| == 4
    requires trace[0].host == a && trace[1].host != a && trace[2].host == a
    requires Answer(ONE_IN_TEN, Some(1), run[0], trace[0]).Ok? && Answer(ONE_IN_TEN, Some(1), run[2], trace[2]).Ok?
    ensures Admitted(ONE_IN_TEN, Some(1), trace, run, a, 0, 3) == 2
  {
    assert Admitted(ONE_IN_TEN, Some(1), trace, run, a, 0, 1) == 1;
    assert Admitted(ONE_IN_TEN, Some(1), trace, run, a, 0, 2) == 1;
  }
}
