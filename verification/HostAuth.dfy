/** Host-call authentication, steps 6 to 11, for any number of concurrent calls.
    The replay cache is locked twice by a call (steps 9 and 11) and the limiter once,
    so calls interleave between those steps. */
module HostAuth {
  import opened Prelude
  import opened MachineInts
  import opened ReplayCache
  import RateLimiter

  datatype Doc = Doc(host: string, nonce: Option<Bytes>, issuedAt: I64)

  /** One call: the host its SVID names, its signed document, whether the
      RPC-specific binding holds, whether the RPC is rate limited, and its clock
      reading. */
  datatype HostCall = HostCall(svidHost: string, doc: Doc, bound: bool, limited: bool, now: I64)

  datatype Refusal = HostMismatch | StaleOrFuture | BindingMismatch | ReplayedNonce | RateLimited(wait: nat)

  /** How far a call has come: nothing checked, steps 6-8, 9, 10, 11 passed. */
  datatype Phase = Arrived | Checked | Unseen | InBudget | Accepted | Refused(why: Refusal)

  predicate Fresh(issuedAt: I64, now: I64) {
    -MAX_SKEW_SECS <= issuedAt - now <= MAX_SKEW_SECS
  }

  function CheckDoc(call: HostCall): Phase {
    if call.doc.host != call.svidHost then Refused(HostMismatch)
    else if !Fresh(call.doc.issuedAt, call.now) then Refused(StaleOrFuture)
    else if !call.bound then Refused(BindingMismatch)
    else Checked
  }

  /** The shared state: cache, limiter, and the latest reading of any replay-lock holder. */
  datatype Node = Node(cache: Cache, buckets: RateLimiter.Buckets, clock: I64, phases: seq<Phase>)

  function DocKey(call: HostCall): Key
    requires call.doc.nonce.Some?
  {
    (call.svidHost, call.doc.nonce.value)
  }

  predicate TakesReplayLock(call: HostCall, phase: Phase) {
    call.doc.nonce.Some? && (phase.Checked? || phase.InBudget?)
  }

  /** Call `id` may take its next step. */
  predicate Enabled(calls: seq<HostCall>, s: Node, id: nat) {
    && |s.phases| == |calls| && id < |calls|
    && !s.phases[id].Accepted? && !s.phases[id].Refused?
  }

  /** The next step of call `id`. */
  function Step(cfg: RateLimiter.Config, calls: seq<HostCall>, s: Node, id: nat): Node
    requires cfg.refill > 0 && s.cache.capacity >= 1 && Enabled(calls, s, id)
  {
    var call := calls[id];
    match s.phases[id]
    case Arrived => s.(phases := s.phases[id := CheckDoc(call)])
    case Checked =>
      if call.doc.nonce.None? then s.(phases := s.phases[id := Unseen])
      else
        var cache := Looked(s.cache, call.now);
        var phase := if Known(cache, DocKey(call), call.doc.issuedAt) then Refused(ReplayedNonce) else Unseen;
        s.(cache := cache, clock := Max(s.clock, call.now), phases := s.phases[id := phase])
    case Unseen =>
      if !call.limited then s.(phases := s.phases[id := InBudget])
      else
        var (buckets, r) := RateLimiter.Checked(cfg, Some(RateLimiter.MAX_TRACKED_HOSTS), s.buckets, call.svidHost,
          call.now);
        s.(buckets := buckets, phases := s.phases[id := if r.Ok? then InBudget else Refused(RateLimited(r.error))])
    case InBudget =>
      if call.doc.nonce.None? then s.(phases := s.phases[id := Accepted])
      else
        var (cache, ok) := Inserted(s.cache, DocKey(call), call.doc.issuedAt, call.now);
        var phase := if ok then Accepted else Refused(ReplayedNonce);
        s.(cache := cache, clock := Max(s.clock, call.now), phases := s.phases[id := phase])
  }

  function Start(calls: seq<HostCall>, capacity: nat): Node {
    Node(Cache([], I64_MIN, Max(capacity, 1)), map[], I64_MIN, seq(|calls|, _ => Arrived))
  }

  /** A run of the node under a schedule of call ids. */
  ghost predicate IsRun(cfg: RateLimiter.Config, calls: seq<HostCall>, capacity: nat, schedule: seq<nat>,
                        run: seq<Node>) {
    && cfg.refill > 0
    && |run| == |schedule| + 1 && run[0] == Start(calls, capacity)
    && forall i | 0 <= i < |schedule| ::
         run[i].cache.capacity >= 1 && Enabled(calls, run[i], schedule[i]) &&
           run[i + 1] == Step(cfg, calls, run[i], schedule[i])
  }

  /** The clock does not decrease in the order in which the replay lock is taken. */
  ghost predicate LocksInOrder(calls: seq<HostCall>, schedule: seq<nat>, run: seq<Node>) {
    forall i | 0 <= i < |schedule| && i < |run| && schedule[i] < |calls| == |run[i].phases| ::
      TakesReplayLock(calls[schedule[i]], run[i].phases[schedule[i]]) ==> run[i].clock <= calls[schedule[i]].now
  }

  // -------------------------------------------------------------- cache invariant

  ghost predicate Sound(c: Cache) {
    1 <= c.capacity && |c.order| <= c.capacity && Distinct(c.order)
  }

  lemma {:induction false} PrunedKeeps(order: seq<Entry>, now: I64)
    requires Distinct(order)
    ensures Distinct(Pruned(order, now)) && |Pruned(order, now)| <= |order|
    ensures SortedByExpiry(order) ==> SortedByExpiry(Pruned(order, now))
    ensures forall e | e in Pruned(order, now) :: e in order
    ensures forall e | e in order :: e in Pruned(order, now) || e.expiresAt <= now
  {
    if order != [] && order[0].expiresAt <= now {
      PrunedKeeps(order[1..], now);
      forall e | e in order
        ensures e == order[0] || e in order[1..]
      {
      }
    }
  }

  lemma {:induction false} EvictedKeeps(c: Cache)
    requires c.capacity >= 1 && Distinct(c.order)
    ensures var d := Evicted(c);
            && Distinct(d.order) && |d.order| < d.capacity == c.capacity && c.floor <= d.floor
            && (SortedByExpiry(c.order) ==> SortedByExpiry(d.order))
            && (forall e | e in d.order :: e in c.order)
            && (forall e | e in c.order :: e in d.order || e.issuedAt <= d.floor)
    decreases |c.order|
  {
    if |c.order| >= c.capacity {
      var first := c.order[0];
      EvictedKeeps(Cache(c.order[1..], Max(c.floor, first.issuedAt), c.capacity));
      forall e | e in c.order
        ensures e == first || e in c.order[1..]
      {
      }
    }
  }

  /** A document recorded until `expiry` is still refused: its entry is there, or the
      floor covers it, or some lock holder has read a time at which its own is up. */
  predicate Remembered(c: Cache, clock: I64, key: Key, issuedAt: I64, expiry: I64) {
    || Entry(key, expiry, issuedAt) in c.order
    || issuedAt <= c.floor
    || expiry <= clock
  }

  lemma LookKeeps(c: Cache, clock: I64, now: I64)
    requires Sound(c)
    ensures Sound(Looked(c, now))
    ensures forall key, issuedAt: I64, expiry: I64 | Remembered(c, clock, key, issuedAt, expiry) ::
              Remembered(Looked(c, now), Max(clock, now), key, issuedAt, expiry)
  {
    PrunedKeeps(c.order, now);
  }

  lemma EvictKeeps(c: Cache, clock: I64)
    requires Sound(c)
    ensures Sound(Evicted(c)) && |Evicted(c).order| < c.capacity && Evicted(c).capacity == c.capacity
    ensures forall e | e in Evicted(c).order :: e in c.order
    ensures forall key, issuedAt: I64, expiry: I64 | Remembered(c, clock, key, issuedAt, expiry) ::
              Remembered(Evicted(c), clock, key, issuedAt, expiry)
  {
    EvictedKeeps(c);
  }

  /** An insert keeps every memory, adds one, and succeeds only on what the cache
      does not remember. */
  lemma InsertKeeps(c: Cache, clock: I64, key: Key, issuedAt: I64, now: I64)
    requires Sound(c)
    ensures var (d, ok) := Inserted(c, key, issuedAt, now);
            var later := Max(clock, now);
            && Sound(d) && d.capacity == c.capacity
            && (forall k, t: I64, x: I64 | Remembered(c, clock, k, t, x) :: Remembered(d, later, k, t, x))
            && (ok ==> Remembered(d, later, key, issuedAt, Expiry(now)))
            && (ok ==> forall x: I64 | Remembered(c, clock, key, issuedAt, x) :: x <= later)
  {
    var p, later := Looked(c, now), Max(clock, now);
    LookKeeps(c, clock, now);
    if !Known(p, key, issuedAt) {
      EvictKeeps(p, later);
      var e, entry := Evicted(p), Entry(key, Expiry(now), issuedAt);
      forall x | x in e.order
        ensures x.key != key
      {
        assert x.key in Keys(p.order);
      }
      assert (e.order + [entry])[|e.order|] == entry;
      forall x: I64 | Remembered(c, clock, key, issuedAt, x)
        ensures x <= later
      {
        assert Remembered(p, later, key, issuedAt, x);
        assert Entry(key, x, issuedAt) in p.order ==> key in Keys(p.order);
      }
    }
  }

  // ---------------------------------------------------------------- whole runs

  predicate PassedChecks(phase: Phase) {
    phase.Checked? || phase.Unseen? || phase.InBudget? || phase.Accepted?
  }

  predicate AcceptedOnce(call: HostCall, phase: Phase) {
    phase.Accepted? && call.doc.nonce.Some?
  }

  /** The call has held the replay lock. */
  predicate HeldLock(call: HostCall, phase: Phase) {
    call.doc.nonce.Some? && CheckDoc(call).Checked? && !phase.Arrived? && !phase.Checked?
  }

  ghost predicate CallInv(call: HostCall, phase: Phase, cache: Cache, clock: I64) {
    && (PassedChecks(phase) ==> CheckDoc(call) == Checked)
    && (AcceptedOnce(call, phase) ==>
          call.now <= clock && Remembered(cache, clock, DocKey(call), call.doc.issuedAt, Expiry(call.now)))
  }

  ghost predicate ClockWasRead(calls: seq<HostCall>, s: Node)
    requires |s.phases| == |calls|
  {
    s.clock == I64_MIN || exists c | 0 <= c < |calls| :: HeldLock(calls[c], s.phases[c]) && calls[c].now == s.clock
  }

  /** Both calls are acceptances of one document. */
  predicate SameDocAccepted(calls: seq<HostCall>, s: Node, a: nat, b: nat)
    requires a < |calls| == |s.phases| && b < |calls|
  {
    a != b && AcceptedOnce(calls[a], s.phases[a]) && AcceptedOnce(calls[b], s.phases[b]) && calls[a].doc == calls[b].doc
  }

  ghost predicate Inv(calls: seq<HostCall>, s: Node) {
    && |s.phases| == |calls| && Sound(s.cache) && ClockWasRead(calls, s)
    && (forall a | 0 <= a < |calls| :: CallInv(calls[a], s.phases[a], s.cache, s.clock))
    && (forall a, b | 0 <= a < |calls| && 0 <= b < |calls| && SameDocAccepted(calls, s, a, b) ::
          Expiry(Min(calls[a].now, calls[b].now)) <= s.clock)
  }

  /** The calls that did not move keep their part of the invariant. */
  lemma OthersKeep(calls: seq<HostCall>, s: Node, t: Node, id: nat)
    requires Inv(calls, s) && id < |calls| && s.clock <= t.clock
    requires |t.phases| == |calls| && forall a | 0 <= a < |calls| && a != id :: t.phases[a] == s.phases[a]
    requires forall k, x: I64, y: I64 | Remembered(s.cache, s.clock, k, x, y) :: Remembered(t.cache, t.clock, k, x, y)
    ensures forall a | 0 <= a < |calls| && a != id :: CallInv(calls[a], t.phases[a], t.cache, t.clock)
  {
    forall a | 0 <= a < |calls| && a != id
      ensures CallInv(calls[a], t.phases[a], t.cache, t.clock)
    {
      assert CallInv(calls[a], s.phases[a], s.cache, s.clock);
    }
  }

  lemma ClockStillRead(calls: seq<HostCall>, s: Node, t: Node, id: nat)
    requires |s.phases| == |t.phases| == |calls| && id < |calls| && ClockWasRead(calls, s)
    requires forall a | 0 <= a < |calls| && a != id :: t.phases[a] == s.phases[a]
    requires HeldLock(calls[id], s.phases[id]) ==> HeldLock(calls[id], t.phases[id])
    requires t.clock == s.clock || (t.clock == calls[id].now && HeldLock(calls[id], t.phases[id]))
    ensures ClockWasRead(calls, t)
  {
    if t.clock == s.clock && s.clock != I64_MIN {
      var c :| 0 <= c < |calls| && HeldLock(calls[c], s.phases[c]) && calls[c].now == s.clock;
      assert HeldLock(calls[c], t.phases[c]);
    }
  }

  lemma LookStepKeeps(cfg: RateLimiter.Config, calls: seq<HostCall>, s: Node, id: nat)
    requires cfg.refill > 0 && Inv(calls, s) && Enabled(calls, s, id)
    requires s.phases[id].Checked? && calls[id].doc.nonce.Some?
    ensures Inv(calls, Step(cfg, calls, s, id)) && Step(cfg, calls, s, id).cache.capacity == s.cache.capacity
  {
    var t := Step(cfg, calls, s, id);
    LookKeeps(s.cache, s.clock, calls[id].now);
    OthersKeep(calls, s, t, id);
    assert CallInv(calls[id], s.phases[id], s.cache, s.clock);
    ClockStillRead(calls, s, t, id);
    forall a, b | 0 <= a < |calls| && 0 <= b < |calls| && SameDocAccepted(calls, t, a, b)
      ensures SameDocAccepted(calls, s, a, b)
    {
    }
  }

  lemma ConsumeStepKeeps(cfg: RateLimiter.Config, calls: seq<HostCall>, s: Node, id: nat)
    requires cfg.refill > 0 && Inv(calls, s) && Enabled(calls, s, id)
    requires s.phases[id].InBudget? && calls[id].doc.nonce.Some?
    ensures Inv(calls, Step(cfg, calls, s, id)) && Step(cfg, calls, s, id).cache.capacity == s.cache.capacity
  {
    var call, t := calls[id], Step(cfg, calls, s, id);
    InsertKeeps(s.cache, s.clock, DocKey(call), call.doc.issuedAt, call.now);
    OthersKeep(calls, s, t, id);
    assert CallInv(call, s.phases[id], s.cache, s.clock);
    ClockStillRead(calls, s, t, id);
    forall a, b | 0 <= a < |calls| && 0 <= b < |calls| && SameDocAccepted(calls, t, a, b)
      ensures Expiry(Min(calls[a].now, calls[b].now)) <= t.clock
    {
      if a == id || b == id {
        var other := if a == id then b else a;
        assert CallInv(calls[other], s.phases[other], s.cache, s.clock);
        assert DocKey(calls[other]) == DocKey(call) && Expiry(calls[other].now) <= t.clock;
      } else {
        assert SameDocAccepted(calls, s, a, b);
      }
    }
  }

  /** The other steps do not touch the replay cache. */
  lemma FreeStepKeeps(cfg: RateLimiter.Config, calls: seq<HostCall>, s: Node, id: nat)
    requires cfg.refill > 0 && Inv(calls, s) && Enabled(calls, s, id) && !TakesReplayLock(calls[id], s.phases[id])
    ensures Inv(calls, Step(cfg, calls, s, id)) && Step(cfg, calls, s, id).cache == s.cache
  {
    var t := Step(cfg, calls, s, id);
    OthersKeep(calls, s, t, id);
    assert CallInv(calls[id], s.phases[id], s.cache, s.clock);
    ClockStillRead(calls, s, t, id);
    forall a, b | 0 <= a < |calls| && 0 <= b < |calls| && SameDocAccepted(calls, t, a, b)
      ensures SameDocAccepted(calls, s, a, b)
    {
    }
  }

  lemma StepKeeps(cfg: RateLimiter.Config, calls: seq<HostCall>, s: Node, id: nat)
    requires cfg.refill > 0 && Inv(calls, s) && Enabled(calls, s, id)
    ensures Inv(calls, Step(cfg, calls, s, id)) && Step(cfg, calls, s, id).cache.capacity == s.cache.capacity
  {
    if TakesReplayLock(calls[id], s.phases[id]) {
      if s.phases[id].Checked? {
        LookStepKeeps(cfg, calls, s, id);
      } else {
        ConsumeStepKeeps(cfg, calls, s, id);
      }
    } else {
      FreeStepKeeps(cfg, calls, s, id);
    }
  }

  lemma {:induction false} RunKeeps(cfg: RateLimiter.Config, calls: seq<HostCall>, capacity: nat, schedule: seq<nat>,
                                    run: seq<Node>, i: nat)
    requires IsRun(cfg, calls, capacity, schedule, run) && i < |run|
    ensures Inv(calls, run[i]) && run[i].cache.capacity == Max(capacity, 1)
  {
    if i > 0 {
      RunKeeps(cfg, calls, capacity, schedule, run, i - 1);
      StepKeeps(cfg, calls, run[i - 1], schedule[i - 1]);
    }
  }

  /** Replay protection under any clock at all: one document is accepted twice only if
      some call that held the replay lock had read a time at or past the expiry that the
      earlier reading gave the document. */
  lemma NoReplayBeforeExpiry(cfg: RateLimiter.Config, calls: seq<HostCall>, capacity: nat, schedule: seq<nat>,
                             run: seq<Node>, i: nat, a: nat, b: nat) returns (c: nat)
    requires IsRun(cfg, calls, capacity, schedule, run) && i < |run|
    requires a < |calls| == |run[i].phases| && b < |calls| && SameDocAccepted(calls, run[i], a, b)
    ensures c < |calls| && HeldLock(calls[c], run[i].phases[c])
    ensures Min(I64_MAX, Min(calls[a].now, calls[b].now) + 600) <= calls[c].now
  {
    RunKeeps(cfg, calls, capacity, schedule, run, i);
    var s := run[i];
    assert Expiry(Min(calls[a].now, calls[b].now)) <= s.clock && s.clock != I64_MIN;
    var k :| 0 <= k < |calls| && HeldLock(calls[k], s.phases[k]) && calls[k].now == s.clock;
    c := k;
  }

  // -------------------------------------------------------- with the locks in order

  /** The clock of the later acceptance is past what the earlier one recorded. */
  predicate PastExpiry(t: I64, u: I64) {
    Expiry(Min(t, u)) <= Max(t, u)
  }

  /** Sorted by expiry, and nothing expires later than what is recorded now would. */
  ghost predicate SortedUpTo(order: seq<Entry>, clock: I64) {
    SortedByExpiry(order) && forall e | e in order :: e.expiresAt <= Expiry(clock)
  }

  ghost predicate PairsPast(calls: seq<HostCall>, s: Node)
    requires |s.phases| == |calls|
  {
    forall a, b | 0 <= a < |calls| && 0 <= b < |calls| && SameDocAccepted(calls, s, a, b) ::
      PastExpiry(calls[a].now, calls[b].now)
  }

  lemma SortedSnoc(order: seq<Entry>, e: Entry, clock: I64)
    requires SortedUpTo(order, clock) && e.expiresAt == Expiry(clock)
    ensures SortedUpTo(order + [e], clock)
  {
  }

  lemma SortedSubset(order: seq<Entry>, clock: I64, kept: seq<Entry>, now: I64)
    requires SortedUpTo(order, clock) && clock <= now && SortedByExpiry(kept) && forall e | e in kept :: e in order
    ensures SortedUpTo(kept, now)
  {
  }

  lemma InsertSorted(c: Cache, clock: I64, key: Key, issuedAt: I64, now: I64)
    requires Sound(c) && SortedUpTo(c.order, clock) && clock <= now
    ensures SortedUpTo(Inserted(c, key, issuedAt, now).0.order, now)
  {
    var p := Looked(c, now);
    PrunedKeeps(c.order, now);
    SortedSubset(c.order, clock, p.order, now);
    if !Known(p, key, issuedAt) {
      EvictedKeeps(p);
      SortedSubset(p.order, now, Evicted(p).order, now);
      SortedSnoc(Evicted(p).order, Entry(key, Expiry(now), issuedAt), now);
    }
  }

  lemma StepSorted(cfg: RateLimiter.Config, calls: seq<HostCall>, s: Node, id: nat)
    requires cfg.refill > 0 && Sound(s.cache) && Enabled(calls, s, id) && SortedUpTo(s.cache.order, s.clock)
    requires TakesReplayLock(calls[id], s.phases[id]) ==> s.clock <= calls[id].now
    ensures SortedUpTo(Step(cfg, calls, s, id).cache.order, Step(cfg, calls, s, id).clock)
  {
    var call := calls[id];
    if TakesReplayLock(call, s.phases[id]) {
      if s.phases[id].Checked? {
        PrunedKeeps(s.cache.order, call.now);
        SortedSubset(s.cache.order, s.clock, Pruned(s.cache.order, call.now), call.now);
      } else {
        InsertSorted(s.cache, s.clock, DocKey(call), call.doc.issuedAt, call.now);
      }
    }
  }

  lemma StepPairs(cfg: RateLimiter.Config, calls: seq<HostCall>, s: Node, id: nat)
    requires cfg.refill > 0 && Inv(calls, s) && Enabled(calls, s, id) && PairsPast(calls, s)
    requires TakesReplayLock(calls[id], s.phases[id]) ==> s.clock <= calls[id].now
    ensures PairsPast(calls, Step(cfg, calls, s, id))
  {
    var call, t := calls[id], Step(cfg, calls, s, id);
    forall a, b | 0 <= a < |calls| && 0 <= b < |calls| && SameDocAccepted(calls, t, a, b)
      ensures PastExpiry(calls[a].now, calls[b].now)
    {
      if !SameDocAccepted(calls, s, a, b) {
        NewPair(cfg, calls, s, id, if a == id then b else a);
      }
    }
  }

  lemma NewPair(cfg: RateLimiter.Config, calls: seq<HostCall>, s: Node, id: nat, other: nat)
    requires cfg.refill > 0 && Inv(calls, s) && Enabled(calls, s, id) && other < |calls| && other != id
    requires TakesReplayLock(calls[id], s.phases[id]) ==> s.clock <= calls[id].now
    requires AcceptedOnce(calls[other], s.phases[other]) && calls[other].doc == calls[id].doc
    requires AcceptedOnce(calls[id], Step(cfg, calls, s, id).phases[id])
    ensures PastExpiry(calls[other].now, calls[id].now)
  {
    var call := calls[id];
    InsertKeeps(s.cache, s.clock, DocKey(call), call.doc.issuedAt, call.now);
    assert CallInv(calls[other], s.phases[other], s.cache, s.clock);
    assert CallInv(call, s.phases[id], s.cache, s.clock);
    assert DocKey(calls[other]) == DocKey(call);
  }

  lemma {:induction false} RunInOrder(cfg: RateLimiter.Config, calls: seq<HostCall>, capacity: nat, schedule: seq<nat>,
                                      run: seq<Node>, i: nat)
    requires IsRun(cfg, calls, capacity, schedule, run) && LocksInOrder(calls, schedule, run) && i < |run|
    ensures |run[i].phases| == |calls| && SortedUpTo(run[i].cache.order, run[i].clock) && PairsPast(calls, run[i])
  {
    if i > 0 {
      RunInOrder(cfg, calls, capacity, schedule, run, i - 1);
      RunKeeps(cfg, calls, capacity, schedule, run, i - 1);
      StepSorted(cfg, calls, run[i - 1], schedule[i - 1]);
      StepPairs(cfg, calls, run[i - 1], schedule[i - 1]);
    }
  }

  /** Two acceptances of one document can only be a window apart: the document was
      issued as far in the future as allowed and came back in the one second in
      which it is still fresh and no longer recorded (or the clock is at its end). */
  predicate WindowApart(issuedAt: I64, t: I64, u: I64) {
    || (u == t + REPLAY_TTL_SECS && issuedAt == t + MAX_SKEW_SECS)
    || (u == I64_MAX && t > I64_MAX - REPLAY_TTL_SECS)
  }

  /** Replay protection: in every interleaving of every set of calls, one document is
      not accepted twice, with that one exception. */
  lemma NoReplay(cfg: RateLimiter.Config, calls: seq<HostCall>, capacity: nat, schedule: seq<nat>, run: seq<Node>,
                 i: nat, a: nat, b: nat)
    requires IsRun(cfg, calls, capacity, schedule, run) && LocksInOrder(calls, schedule, run) && i < |run|
    requires a < |calls| == |run[i].phases| && b < |calls| && SameDocAccepted(calls, run[i], a, b)
    ensures WindowApart(calls[a].doc.issuedAt, Min(calls[a].now, calls[b].now), Max(calls[a].now, calls[b].now))
  {
    RunKeeps(cfg, calls, capacity, schedule, run, i);
    RunInOrder(cfg, calls, capacity, schedule, run, i);
    assert CallInv(calls[a], run[i].phases[a], run[i].cache, run[i].clock);
    assert CallInv(calls[b], run[i].phases[b], run[i].cache, run[i].clock);
  }

  /** In every reachable state the cache has distinct keys and is within capacity, and with
      the locks in order it is sorted by expiry. */
  lemma CacheAlwaysOrdered(cfg: RateLimiter.Config, calls: seq<HostCall>, capacity: nat, schedule: seq<nat>,
                           run: seq<Node>, i: nat)
    requires IsRun(cfg, calls, capacity, schedule, run) && i < |run|
    ensures Distinct(run[i].cache.order) && |run[i].cache.order| <= Max(capacity, 1)
    ensures LocksInOrder(calls, schedule, run) ==> SortedByExpiry(run[i].cache.order)
  {
    RunKeeps(cfg, calls, capacity, schedule, run, i);
    if LocksInOrder(calls, schedule, run) {
      RunInOrder(cfg, calls, capacity, schedule, run, i);
    }
  }

  /** An authentic, fresh, unseen call of an unlimited RPC, left undisturbed, is
      accepted in four steps. */
  lemma SoloCall(cfg: RateLimiter.Config, calls: seq<HostCall>, s: Node, id: nat)
    returns (s1: Node, s2: Node, s3: Node, s4: Node)
    requires cfg.refill > 0 && s.cache.capacity >= 1 && Enabled(calls, s, id) && s.phases[id].Arrived?
    requires CheckDoc(calls[id]).Checked? && calls[id].doc.nonce.Some? && !calls[id].limited
    requires !Known(Looked(Looked(s.cache, calls[id].now), calls[id].now), DocKey(calls[id]), calls[id].doc.issuedAt)
    requires !Known(Looked(s.cache, calls[id].now), DocKey(calls[id]), calls[id].doc.issuedAt)
    ensures s1 == Step(cfg, calls, s, id) && s1.cache.capacity >= 1 && Enabled(calls, s1, id)
    ensures s2 == Step(cfg, calls, s1, id) && s2.cache.capacity >= 1 && Enabled(calls, s2, id)
    ensures s3 == Step(cfg, calls, s2, id) && s3.cache.capacity >= 1 && Enabled(calls, s3, id)
    ensures s4 == Step(cfg, calls, s3, id) && s4.phases == s.phases[id := Accepted] &&
            s4.clock == Max(s.clock, calls[id].now)
    ensures s4.cache == Inserted(Looked(s.cache, calls[id].now), DocKey(calls[id]), calls[id].doc.issuedAt,
            calls[id].now).0
  {
    s1 := Step(cfg, calls, s, id);
    s2 := Step(cfg, calls, s1, id);
    s3 := Step(cfg, calls, s2, id);
    s4 := Step(cfg, calls, s3, id);
  }

  /** The exception is real: a document that is still fresh when its record expires
      is accepted at t and again at that moment, by a cache of any capacity. */
  lemma AcceptedTwiceInTheWindow(cfg: RateLimiter.Config, capacity: nat, doc: Doc, t: I64)
    returns (calls: seq<HostCall>, run: seq<Node>)
    requires cfg.refill > 0 && doc.nonce.Some?
    requires Fresh(doc.issuedAt, t) && Fresh(doc.issuedAt, Min(I64_MAX, t + 600))
    ensures calls == [HostCall(doc.host, doc, true, false, t),
            HostCall(doc.host, doc, true, false, Min(I64_MAX, t + 600))]
    ensures IsRun(cfg, calls, capacity, [0, 0, 0, 0, 1, 1, 1, 1], run)
    ensures LocksInOrder(calls, [0, 0, 0, 0, 1, 1, 1, 1], run)
    ensures run[8].phases == [Accepted, Accepted]
  {
    calls := [HostCall(doc.host, doc, true, false, t), HostCall(doc.host, doc, true, false, Min(I64_MAX, t + 600))];
    var s0 := Start(calls, capacity);
    var s1, s2, s3, s4 := SoloCall(cfg, calls, s0, 0);
    var entry := Entry(DocKey(calls[0]), Expiry(t), doc.issuedAt);
    assert s4.cache == s0.cache.(order := [entry]);
    assert Pruned([entry], Expiry(t)) == [];
    var s5, s6, s7, s8 := SoloCall(cfg, calls, s4, 1);
    run := [s0, s1, s2, s3, s4, s5, s6, s7, s8];
  }

  /** So is the reading past expiry when the clock is not in order: a call for any other
      document that reads that time makes the cache forget, and the document is accepted
      again at its own old time. */
  lemma AcceptedTwiceAfterALateReading(cfg: RateLimiter.Config, capacity: nat, doc: Doc, other: Doc, t: I64)
    returns (calls: seq<HostCall>, run: seq<Node>)
    requires cfg.refill > 0 && doc.nonce.Some? && other.nonce.Some?
    requires Fresh(doc.issuedAt, t) && Fresh(other.issuedAt, Min(I64_MAX, t + 600)) && I64_MIN < doc.issuedAt
    ensures calls == [HostCall(doc.host, doc, true, false, t),
            HostCall(other.host, other, true, false, Min(I64_MAX, t + 600)),
                      HostCall(doc.host, doc, true, false, t)]
    ensures IsRun(cfg, calls, capacity, [0, 0, 0, 0, 1, 1, 2, 2, 2, 2], run)
    ensures run[10].phases == [Accepted, Unseen, Accepted]
  {
    calls := [HostCall(doc.host, doc, true, false, t), HostCall(other.host, other, true, false, Min(I64_MAX, t + 600)),
              HostCall(doc.host, doc, true, false, t)];
    var s0 := Start(calls, capacity);
    var s1, s2, s3, s4 := SoloCall(cfg, calls, s0, 0);
    var entry := Entry(DocKey(calls[0]), Expiry(t), doc.issuedAt);
    assert s4.cache == s0.cache.(order := [entry]);
    assert Pruned([entry], Expiry(t)) == [];
    var s5 := Step(cfg, calls, s4, 1);
    var s6 := Step(cfg, calls, s5, 1);
    assert s6.cache == s0.cache;
    var s7, s8, s9, s10 := SoloCall(cfg, calls, s6, 2);
    run := [s0, s1, s2, s3, s4, s5, s6, s7, s8, s9, s10];
  }

  // ----------------------------------------------------------- one call, in code

  /** A lone call taken to its end. */
  function Finished(cfg: RateLimiter.Config, call: HostCall, s: Node): Node
    requires cfg.refill > 0 && s.cache.capacity >= 1 && |s.phases| == 1 && s.clock == call.now
    decreases match s.phases[0] case Arrived => 4 case Checked => 3 case Unseen => 2 case InBudget => 1 case _ => 0
  {
    if s.phases[0].Accepted? || s.phases[0].Refused? then s
    else
      CapacityKept(s.cache, call, call.now);
      Finished(cfg, call, Step(cfg, [call], s, 0))
  }

  /** t is s after the call's next step. */
  lemma Advance(cfg: RateLimiter.Config, call: HostCall, s: Node, t: Node)
    requires cfg.refill > 0 && s.cache.capacity >= 1 && |s.phases| == |t.phases| == 1 && s.clock == t.clock == call.now
    requires !s.phases[0].Accepted? && !s.phases[0].Refused?
    requires var n := Step(cfg, [call], s, 0);
             n.cache == t.cache && n.buckets == t.buckets && n.phases[0] == t.phases[0]
    ensures t.cache.capacity >= 1 && Finished(cfg, call, s) == Finished(cfg, call, t)
  {
    CapacityKept(s.cache, call, call.now);
    assert t.phases == Step(cfg, [call], s, 0).phases;
    assert t == Step(cfg, [call], s, 0);
  }

  lemma CapacityKept(c: Cache, call: HostCall, now: I64)
    requires c.capacity >= 1
    ensures call.doc.nonce.Some? ==> Inserted(c, DocKey(call), call.doc.issuedAt, now).0.capacity == c.capacity
  {
    EvictedCapacity(Looked(c, now));
  }

  lemma {:induction false} EvictedCapacity(c: Cache)
    requires c.capacity >= 1
    ensures Evicted(c).capacity == c.capacity
    decreases |c.order|
  {
    if |c.order| >= c.capacity {
      EvictedCapacity(Cache(c.order[1..], Max(c.floor, c.order[0].issuedAt), c.capacity));
    }
  }

  /** Steps 6 to 11 in order: the node's steps, taken by one call alone. */
  method Authenticate(replay: ReplayCache, limiter: RateLimiter.HostRateLimiter, call: HostCall)
    returns (phase: Phase)
    requires replay.Valid() && RateLimiter.Good(limiter.cfg)
    modifies replay, limiter
    ensures replay.Valid() && limiter.cfg.refill > 0
    ensures phase.Accepted? || phase.Refused?
    ensures phase.Accepted? ==>
              call.doc.host == call.svidHost && -300 <= call.doc.issuedAt - call.now <= 300 && call.bound
    ensures phase == Refused(HostMismatch) <==> call.doc.host != call.svidHost
    ensures phase == Refused(StaleOrFuture) <==>
            call.doc.host == call.svidHost && !(-300 <= call.doc.issuedAt - call.now <= 300)
    ensures phase == Refused(BindingMismatch) <==>
            call.doc.host == call.svidHost && -300 <= call.doc.issuedAt - call.now <= 300 && !call.bound
    ensures phase.Refused? && phase.why.RateLimited? ==>
              && call.limited
              && RateLimiter.Checked(limiter.cfg, Some(RateLimiter.MAX_TRACKED_HOSTS), old(limiter.buckets),
                                     call.svidHost, call.now).1 == Err(phase.why.wait)
    ensures Node(replay.Value(), limiter.buckets, call.now, [phase]) ==
            Finished(limiter.cfg, call, Node(old(replay.Value()), old(limiter.buckets), call.now, [Arrived]))
  {
    RateLimiter.GoodConfig(limiter.cfg);
    ghost var s0 := Node(replay.Value(), limiter.buckets, call.now, [Arrived]);
    phase := CheckDoc(call);
    ghost var s1 := Node(replay.Value(), limiter.buckets, call.now, [phase]);
    Advance(limiter.cfg, call, s0, s1);
    if phase.Refused? {
      return;
    }
    if call.doc.nonce.Some? {
      var seen := replay.Seen(call.svidHost, call.doc.nonce.value, call.doc.issuedAt, call.now);
      phase := if seen then Refused(ReplayedNonce) else Unseen;
    } else {
      phase := Unseen;
    }
    ghost var s2 := Node(replay.Value(), limiter.buckets, call.now, [phase]);
    Advance(limiter.cfg, call, s1, s2);
    if phase.Refused? {
      return;
    }
    phase := InBudget;
    if call.limited {
      var r := limiter.Check(call.svidHost, call.now);
      if r.Err? {
        phase := Refused(RateLimited(r.error));
      }
    }
    ghost var s3 := Node(replay.Value(), limiter.buckets, call.now, [phase]);
    Advance(limiter.cfg, call, s2, s3);
    if phase.Refused? {
      return;
    }
    phase := Accepted;
    if call.doc.nonce.Some? {
      var unused := replay.Insert(call.svidHost, call.doc.nonce.value, call.doc.issuedAt, call.now);
      if !unused {
        phase := Refused(ReplayedNonce);
      }
    }
    ghost var s4 := Node(replay.Value(), limiter.buckets, call.now, [phase]);
    Advance(limiter.cfg, call, s3, s4);
  }
}