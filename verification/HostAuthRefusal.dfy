/** Why a document is refused as replayed: because it was accepted, or because the cache
    overflowed and the document is no newer than one that was accepted. */
module HostAuthRefusal {
  import opened Prelude
  import opened MachineInts
  import opened ReplayCache
  import opened HostAuth
  import RateLimiter

  /** The calls accepted with a nonce. */
  function AcceptedIds(calls: seq<HostCall>, s: Node): set<nat> {
    set a: nat | a < |calls| && a < |s.phases| && AcceptedOnce(calls[a], s.phases[a])
  }

  /** An entry of the cache records an accepted call. */
  ghost predicate Backed(calls: seq<HostCall>, s: Node, e: Entry) {
    exists c | c in AcceptedIds(calls, s) :: DocKey(calls[c]) == e.key && calls[c].doc.issuedAt == e.issuedAt
  }

  /** An accepted call was issued at this time, and there have been as many as the cache
      has room for. */
  ghost predicate Overflowed(calls: seq<HostCall>, s: Node, floor: I64) {
    && |AcceptedIds(calls, s)| >= s.cache.capacity
    && exists c | c in AcceptedIds(calls, s) :: calls[c].doc.issuedAt == floor
  }

  ghost predicate FloorBacked(calls: seq<HostCall>, s: Node) {
    s.cache.floor == I64_MIN || Overflowed(calls, s, s.cache.floor)
  }

  /** The document's key was accepted, or after an overflow some document at least as new
      was; or it bears the earliest time there is. */
  ghost predicate Justified(calls: seq<HostCall>, s: Node, call: HostCall) {
    call.doc.nonce.Some? &&
    (|| (exists c | c in AcceptedIds(calls, s) :: DocKey(calls[c]) == DocKey(call))
     || (exists floor: I64 | call.doc.issuedAt <= floor :: Overflowed(calls, s, floor))
     || call.doc.issuedAt == I64_MIN)
  }

  ghost predicate Accounted(calls: seq<HostCall>, s: Node) {
    && |s.phases| == |calls| && Sound(s.cache) && FloorBacked(calls, s)
    && (forall e | e in s.cache.order :: Backed(calls, s, e))
    && (forall a | 0 <= a < |calls| && s.phases[a] == Refused(ReplayedNonce) :: Justified(calls, s, calls[a]))
  }

  // ------------------------------------------------------------------- what is kept

  /** More calls are accepted, with a cache of the same capacity. */
  ghost predicate Grows(calls: seq<HostCall>, s: Node, t: Node) {
    AcceptedIds(calls, s) <= AcceptedIds(calls, t) && s.cache.capacity == t.cache.capacity
  }

  lemma OverflowStays(calls: seq<HostCall>, s: Node, t: Node, floor: I64)
    requires Grows(calls, s, t) && Overflowed(calls, s, floor)
    ensures Overflowed(calls, t, floor)
  {
    SubsetSize(AcceptedIds(calls, s), AcceptedIds(calls, t));
    var c :| c in AcceptedIds(calls, s) && calls[c].doc.issuedAt == floor;
    assert c in AcceptedIds(calls, t);
  }

  lemma JustifiedStays(calls: seq<HostCall>, s: Node, t: Node, call: HostCall)
    requires Grows(calls, s, t) && Justified(calls, s, call)
    ensures Justified(calls, t, call)
  {
    if floor: I64 :| call.doc.issuedAt <= floor && Overflowed(calls, s, floor) {
      OverflowStays(calls, s, t, floor);
    } else if call.doc.issuedAt != I64_MIN {
      var c :| c in AcceptedIds(calls, s) && DocKey(calls[c]) == DocKey(call);
      assert c in AcceptedIds(calls, t);
    }
  }

  lemma BackedStays(calls: seq<HostCall>, s: Node, t: Node, e: Entry)
    requires Grows(calls, s, t) && Backed(calls, s, e)
    ensures Backed(calls, t, e)
  {
    var c :| c in AcceptedIds(calls, s) && DocKey(calls[c]) == e.key && calls[c].doc.issuedAt == e.issuedAt;
    assert c in AcceptedIds(calls, t);
  }

  lemma StepGrows(cfg: RateLimiter.Config, calls: seq<HostCall>, s: Node, id: nat)
    requires cfg.refill > 0 && Sound(s.cache) && Enabled(calls, s, id)
    ensures Grows(calls, s, Step(cfg, calls, s, id))
  {
    if calls[id].doc.nonce.Some? {
      CapacityKept(s.cache, calls[id], calls[id].now);
    }
  }

  // ------------------------------------------------------------------ what is refused

  /** What the cache knows is justified. */
  lemma KnownIsJustified(calls: seq<HostCall>, s: Node, cache: Cache, call: HostCall)
    requires call.doc.nonce.Some? && FloorBacked(calls, s) && cache.floor == s.cache.floor
    requires forall e | e in cache.order :: Backed(calls, s, e)
    requires Known(cache, DocKey(call), call.doc.issuedAt)
    ensures Justified(calls, s, call)
  {
    if call.doc.issuedAt <= cache.floor {
      if cache.floor != I64_MIN {
        assert Overflowed(calls, s, cache.floor);
      }
    } else {
      var e :| e in cache.order && e.key == DocKey(call);
      assert Backed(calls, s, e);
    }
  }

  // --------------------------------------------------------------------- the overflow

  /** Eviction happens only to a full cache, and the floor it leaves is an entry's time. */
  lemma {:induction false} EvictedFloor(c: Cache)
    requires c.capacity >= 1
    ensures var d := Evicted(c);
            d.floor == c.floor || (|c.order| >= c.capacity && exists e | e in c.order :: e.issuedAt == d.floor)
    decreases |c.order|
  {
    if |c.order| >= c.capacity {
      var first, rest := c.order[0], c.order[1..];
      EvictedFloor(Cache(rest, Max(c.floor, first.issuedAt), c.capacity));
      assert first in c.order && forall e | e in rest :: e in c.order;
    }
  }

  /** Distinct entries record distinct calls. */
  lemma {:induction false} ManyAccepted(calls: seq<HostCall>, s: Node, order: seq<Entry>, n: nat)
    returns (ids: set<nat>)
    requires n <= |order| && Distinct(order) && forall e | e in order :: Backed(calls, s, e)
    ensures ids <= AcceptedIds(calls, s) && |ids| == n
    ensures forall a | a in ids :: exists k | 0 <= k < n :: DocKey(calls[a]) == order[k].key
  {
    if n == 0 {
      ids := {};
    } else {
      var fewer := ManyAccepted(calls, s, order, n - 1);
      assert Backed(calls, s, order[n - 1]);
      var c :| c in AcceptedIds(calls, s) && DocKey(calls[c]) == order[n - 1].key;
      assert c !in fewer;
      ids := fewer + {c};
    }
  }

  lemma EvictionOverflows(calls: seq<HostCall>, s: Node, cache: Cache)
    requires Sound(cache) && cache.capacity == s.cache.capacity && forall e | e in cache.order :: Backed(calls, s, e)
    ensures Evicted(cache).floor == cache.floor || Overflowed(calls, s, Evicted(cache).floor)
  {
    EvictedFloor(cache);
    if Evicted(cache).floor != cache.floor {
      var ids := ManyAccepted(calls, s, cache.order, |cache.order|);
      SubsetSize(ids, AcceptedIds(calls, s));
      var e :| e in cache.order && e.issuedAt == Evicted(cache).floor;
      assert Backed(calls, s, e);
    }
  }

  // ------------------------------------------------------------------------ every step

  lemma LookAccounted(cfg: RateLimiter.Config, calls: seq<HostCall>, s: Node, id: nat)
    requires cfg.refill > 0 && Accounted(calls, s) && Enabled(calls, s, id)
    requires s.phases[id].Checked? && calls[id].doc.nonce.Some?
    ensures var t := Step(cfg, calls, s, id);
            && Sound(t.cache) && FloorBacked(calls, t) && (forall e | e in t.cache.order :: Backed(calls, t, e))
            && (t.phases[id] == Refused(ReplayedNonce) ==> Justified(calls, t, calls[id]))
  {
    var t := Step(cfg, calls, s, id);
    StepGrows(cfg, calls, s, id);
    LookKeeps(s.cache, s.clock, calls[id].now);
    PrunedKeeps(s.cache.order, calls[id].now);
    Carry(calls, s, t, t.cache.order);
    if t.phases[id] == Refused(ReplayedNonce) {
      KnownIsJustified(calls, t, t.cache, calls[id]);
    }
  }

  /** Entries and floor stay backed as calls are accepted. */
  lemma Carry(calls: seq<HostCall>, s: Node, t: Node, order: seq<Entry>)
    requires Grows(calls, s, t) && FloorBacked(calls, s) && forall e | e in order :: Backed(calls, s, e)
    ensures forall e | e in order :: Backed(calls, t, e)
    ensures t.cache.floor == s.cache.floor ==> FloorBacked(calls, t)
  {
    forall e | e in order
      ensures Backed(calls, t, e)
    {
      BackedStays(calls, s, t, e);
    }
    if s.cache.floor != I64_MIN {
      OverflowStays(calls, s, t, s.cache.floor);
    }
  }

  lemma ConsumeAccounted(cfg: RateLimiter.Config, calls: seq<HostCall>, s: Node, id: nat)
    requires cfg.refill > 0 && Accounted(calls, s) && Enabled(calls, s, id)
    requires s.phases[id].InBudget? && calls[id].doc.nonce.Some?
    ensures var t := Step(cfg, calls, s, id);
            && Sound(t.cache) && FloorBacked(calls, t) && (forall e | e in t.cache.order :: Backed(calls, t, e))
            && (t.phases[id] == Refused(ReplayedNonce) ==> Justified(calls, t, calls[id]))
  {
    var call, t := calls[id], Step(cfg, calls, s, id);
    var p := Looked(s.cache, call.now);
    StepGrows(cfg, calls, s, id);
    InsertKeeps(s.cache, s.clock, DocKey(call), call.doc.issuedAt, call.now);
    LookKeeps(s.cache, s.clock, call.now);
    PrunedKeeps(s.cache.order, call.now);
    Carry(calls, s, t, p.order);
    if Known(p, DocKey(call), call.doc.issuedAt) {
      KnownIsJustified(calls, t, p, call);
    } else {
      EvictedKeeps(p);
      EvictionOverflows(calls, t, p);
      if Evicted(p).floor == s.cache.floor && s.cache.floor != I64_MIN {
        OverflowStays(calls, s, t, s.cache.floor);
      }
      AddedIsBacked(calls, t, p, call, id);
    }
  }

  lemma AddedIsBacked(calls: seq<HostCall>, t: Node, p: Cache, call: HostCall, id: nat)
    requires id in AcceptedIds(calls, t) && call == calls[id] && p.capacity >= 1
    requires forall e | e in Evicted(p).order :: Backed(calls, t, e)
    ensures var entry := Entry(DocKey(call), Expiry(call.now), call.doc.issuedAt);
            forall e | e in Evicted(p).order + [entry] :: Backed(calls, t, e)
  {
    var entry := Entry(DocKey(call), Expiry(call.now), call.doc.issuedAt);
    assert Backed(calls, t, entry);
  }

  lemma StepAccounted(cfg: RateLimiter.Config, calls: seq<HostCall>, s: Node, id: nat)
    requires cfg.refill > 0 && Accounted(calls, s) && Enabled(calls, s, id)
    ensures Accounted(calls, Step(cfg, calls, s, id))
  {
    var t := Step(cfg, calls, s, id);
    StepGrows(cfg, calls, s, id);
    if TakesReplayLock(calls[id], s.phases[id]) {
      if s.phases[id].Checked? {
        LookAccounted(cfg, calls, s, id);
      } else {
        ConsumeAccounted(cfg, calls, s, id);
      }
    } else {
      Carry(calls, s, t, s.cache.order);
    }
    forall a | 0 <= a < |calls| && t.phases[a] == Refused(ReplayedNonce)
      ensures Justified(calls, t, calls[a])
    {
      if a != id {
        JustifiedStays(calls, s, t, calls[a]);
      }
    }
  }

  lemma {:induction false} RunAccounted(cfg: RateLimiter.Config, calls: seq<HostCall>, capacity: nat,
                                        schedule: seq<nat>,
                                        run: seq<Node>, i: nat)
    requires IsRun(cfg, calls, capacity, schedule, run) && i < |run|
    ensures Accounted(calls, run[i]) && run[i].cache.capacity == Max(capacity, 1)
  {
    if i > 0 {
      RunAccounted(cfg, calls, capacity, schedule, run, i - 1);
      StepAccounted(cfg, calls, run[i - 1], schedule[i - 1]);
      StepGrows(cfg, calls, run[i - 1], schedule[i - 1]);
    }
  }

  /** No refusal without cause, in any interleaving under any clock: a call refused as a
      replay has its nonce accepted from its host by some other call, or as many documents
      as the cache holds have been accepted and one of them is at least as new (or it bears
      the earliest time there is, where the floor starts). */
  lemma RefusalsAreJustified(cfg: RateLimiter.Config, calls: seq<HostCall>, capacity: nat, schedule: seq<nat>,
                             run: seq<Node>, i: nat, a: nat)
    requires IsRun(cfg, calls, capacity, schedule, run) && i < |run|
    requires a < |calls| == |run[i].phases| && run[i].phases[a] == Refused(ReplayedNonce)
    ensures calls[a].doc.nonce.Some?
    ensures var accepted := AcceptedIds(calls, run[i]);
            || (exists c | c in accepted :: c != a && DocKey(calls[c]) == DocKey(calls[a]))
            || (&& |accepted| >= Max(capacity, 1)
                && exists c | c in accepted :: c != a && calls[a].doc.issuedAt <= calls[c].doc.issuedAt)
            || calls[a].doc.issuedAt == I64_MIN
  {
    RunAccounted(cfg, calls, capacity, schedule, run, i);
    assert a !in AcceptedIds(calls, run[i]);
  }
}
