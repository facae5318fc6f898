/** What the answer to a call says about the call, over whole interleaved runs. */
module HostAuthChecks {
  import opened Prelude
  import opened MachineInts
  import opened HostAuth
  import opened ReplayCache
  import RateLimiter

  const LIMIT: Option<nat> := Some(RateLimiter.MAX_TRACKED_HOSTS)

  /** The three checks of the document passed: it names the host of the SVID, was issued
      within 300 seconds either way, and is bound to this call. */
  predicate Passes(call: HostCall) {
    call.doc.host == call.svidHost && -300 <= call.doc.issuedAt - call.now <= 300 && call.bound
  }

  /** What a phase says about its call. */
  predicate Tells(call: HostCall, phase: Phase) {
    match phase
    case Arrived => true
    case Refused(HostMismatch) => call.doc.host != call.svidHost
    case Refused(StaleOrFuture) =>
      call.doc.host == call.svidHost && (call.doc.issuedAt - call.now < -300 || call.doc.issuedAt - call.now > 300)
    case Refused(BindingMismatch) =>
      call.doc.host == call.svidHost && -300 <= call.doc.issuedAt - call.now <= 300 && !call.bound
    case Refused(ReplayedNonce) => Passes(call) && call.doc.nonce.Some?
    case Refused(RateLimited(_)) => Passes(call) && call.limited
    case _ => Passes(call)
  }

  /** The limiter refused call a with this wait when its turn came. */
  ghost predicate WasLimited(cfg: RateLimiter.Config, calls: seq<HostCall>, schedule: seq<nat>, run: seq<Node>, i: nat,
                             a: nat, wait: nat)
    requires cfg.refill > 0 && a < |calls| && |schedule| < |run|
  {
    exists k | 0 <= k < i && k < |schedule| ::
      && schedule[k] == a && a < |run[k].phases| && run[k].phases[a].Unseen?
      && RateLimiter.Answer(cfg, LIMIT, run[k].buckets, RateLimiter.Call(calls[a].svidHost, calls[a].now)) == Err(wait)
  }

  lemma StepTells(cfg: RateLimiter.Config, calls: seq<HostCall>, s: Node, id: nat)
    requires cfg.refill > 0 && s.cache.capacity >= 1 && Enabled(calls, s, id) && Tells(calls[id], s.phases[id])
    ensures var t := Step(cfg, calls, s, id);
            && |t.phases| == |s.phases| && Tells(calls[id], t.phases[id])
            && (forall a | 0 <= a < |calls| && a != id :: t.phases[a] == s.phases[a])
            && (t.phases[id].Refused? && t.phases[id].why.RateLimited? ==>
                  && s.phases[id].Unseen?
                  && RateLimiter.Answer(cfg, LIMIT, s.buckets, RateLimiter.Call(calls[id].svidHost, calls[id].now)) ==
                     Err(t.phases[id].why.wait))
  {
  }

  /** In every state of every interleaving each answer means what it says: an accepted call
      passed all three checks, each of the three refusals comes exactly from its own check
      with the earlier ones passed, and a rate refusal carries the limiter's own wait. */
  lemma {:induction false} AnswersTell(cfg: RateLimiter.Config, calls: seq<HostCall>, capacity: nat, schedule: seq<nat>,
                                       run: seq<Node>, i: nat, a: nat)
    requires IsRun(cfg, calls, capacity, schedule, run) && i < |run| && a < |calls|
    ensures |run[i].phases| == |calls| && Tells(calls[a], run[i].phases[a])
    ensures run[i].phases[a].Refused? && run[i].phases[a].why.RateLimited? ==>
              WasLimited(cfg, calls, schedule, run, i, a, run[i].phases[a].why.wait)
  {
    if i > 0 {
      AnswersTell(cfg, calls, capacity, schedule, run, i - 1, a);
      var s, id := run[i - 1], schedule[i - 1];
      AnswersTell(cfg, calls, capacity, schedule, run, i - 1, id);
      StepTells(cfg, calls, s, id);
    }
  }

  /** Every call that is past its first step is refused by a check exactly when it fails
      that check first. */
  lemma RefusedByCheckIff(cfg: RateLimiter.Config, calls: seq<HostCall>, capacity: nat, schedule: seq<nat>,
                          run: seq<Node>, i: nat, a: nat)
    requires IsRun(cfg, calls, capacity, schedule, run) && i < |run| && a < |calls| == |run[i].phases|
    requires !run[i].phases[a].Arrived?
    ensures var call, phase := calls[a], run[i].phases[a];
            && (phase == Refused(HostMismatch) <==> call.doc.host != call.svidHost)
            && (phase == Refused(StaleOrFuture) <==>
                call.doc.host == call.svidHost && !(-300 <= call.doc.issuedAt - call.now <= 300))
            && (phase == Refused(BindingMismatch) <==>
                call.doc.host == call.svidHost && -300 <= call.doc.issuedAt - call.now <= 300 && !call.bound)
  {
    AnswersTell(cfg, calls, capacity, schedule, run, i, a);
  }

  // ------------------------------------------------------- replays cost the host nothing

  /** How far a call has come, as a number. */
  function Rank(phase: Phase): nat {
    match phase
    case Arrived => 0
    case Checked => 1
    case Unseen => 2
    case InBudget => 3
    case _ => 4
  }

  lemma StepRank(cfg: RateLimiter.Config, calls: seq<HostCall>, s: Node, id: nat, a: nat)
    requires cfg.refill > 0 && s.cache.capacity >= 1 && Enabled(calls, s, id) && a < |calls|
    ensures var t := Step(cfg, calls, s, id);
            && |t.phases| == |calls| && Rank(s.phases[a]) <= Rank(t.phases[a])
            && (!s.phases[id].Unseen? ==> t.buckets == s.buckets)
  {
  }

  lemma {:induction false} RankGrows(cfg: RateLimiter.Config, calls: seq<HostCall>, capacity: nat, schedule: seq<nat>,
                                     run: seq<Node>, i: nat, j: nat, a: nat)
    requires IsRun(cfg, calls, capacity, schedule, run) && i <= j < |run| && a < |calls|
    ensures |run[i].phases| == |run[j].phases| == |calls| && Rank(run[i].phases[a]) <= Rank(run[j].phases[a])
    decreases j
  {
    if i < j {
      RankGrows(cfg, calls, capacity, schedule, run, i, j - 1, a);
      StepRank(cfg, calls, run[j - 1], schedule[j - 1], a);
    } else {
      RunKeeps(cfg, calls, capacity, schedule, run, i);
    }
  }

  /** A document the cache remembers is refused when it is looked up before the memory is
      up. */
  lemma RememberedIsKnown(c: Cache, clock: I64, key: Key, issuedAt: I64, expiry: I64, now: I64)
    requires Sound(c) && Remembered(c, clock, key, issuedAt, expiry) && clock < expiry && now < expiry
    ensures Known(Looked(c, now), key, issuedAt)
  {
    PrunedKeeps(c.order, now);
    if issuedAt > c.floor {
      assert Entry(key, expiry, issuedAt) in Pruned(c.order, now);
    }
  }

  /** Call b looks its document up when call a has had it accepted, and no lock holder, b
      included, has read a time 600 seconds past a's: b is refused as a replay there and
      then, and no step of b, before or after, touches the limiter. */
  lemma ReplaySpendsNothing(cfg: RateLimiter.Config, calls: seq<HostCall>, capacity: nat, schedule: seq<nat>,
                            run: seq<Node>, i: nat, a: nat, b: nat)
    requires IsRun(cfg, calls, capacity, schedule, run) && i < |schedule| && schedule[i] == b && a < |calls|
    requires b < |calls| && |run[i].phases| == |calls| && run[i].phases[a].Accepted? && run[i].phases[b].Checked?
    requires calls[a].doc == calls[b].doc && calls[a].doc.nonce.Some?
    requires Max(run[i].clock, calls[b].now) < Min(I64_MAX, calls[a].now + 600)
    ensures b < |run[i + 1].phases| && run[i + 1].phases[b] == Refused(ReplayedNonce)
    ensures forall k | 0 <= k < |schedule| && schedule[k] == b :: run[k + 1].buckets == run[k].buckets
  {
    assert Known(Looked(run[i].cache, calls[b].now), DocKey(calls[b]), calls[b].doc.issuedAt) by {
      RunKeeps(cfg, calls, capacity, schedule, run, i);
      AnswersTell(cfg, calls, capacity, schedule, run, i, a);
      AnswersTell(cfg, calls, capacity, schedule, run, i, b);
      assert CallInv(calls[a], run[i].phases[a], run[i].cache, run[i].clock);
      RememberedIsKnown(run[i].cache, run[i].clock, DocKey(calls[b]), calls[b].doc.issuedAt, Expiry(calls[a].now),
                        calls[b].now);
    }
    forall k | 0 <= k < |schedule| && schedule[k] == b
      ensures run[k + 1].buckets == run[k].buckets
    {
      if k <= i {
        RankGrows(cfg, calls, capacity, schedule, run, k, i, b);
      } else {
        RankGrows(cfg, calls, capacity, schedule, run, i + 1, k, b);
      }
      StepRank(cfg, calls, run[k], b, b);
    }
  }
}
