/** The bounded (host, nonce) replay cache with eviction and a rising floor. */
module ReplayCache {
  import opened Prelude
  import opened MachineInts

  const MAX_SKEW_SECS: int := 300
  const REPLAY_TTL_SECS: int := 600

  type Key = (string, Bytes)

  datatype Entry = Entry(key: Key, expiresAt: I64, issuedAt: I64)

  /** The cache as a value. */
  datatype Cache = Cache(order: seq<Entry>, floor: I64, capacity: nat)

  function Expiry(now: I64): I64 {
    AddI64(now, REPLAY_TTL_SECS)
  }

  function Keys(order: seq<Entry>): set<Key> {
    set e | e in order :: e.key
  }

  predicate Distinct(order: seq<Entry>) {
    forall i, j | 0 <= i < j < |order| :: order[i].key != order[j].key
  }

  predicate SortedByExpiry(order: seq<Entry>) {
    forall i, j | 0 <= i < j < |order| :: order[i].expiresAt <= order[j].expiresAt
  }

  function Pruned(order: seq<Entry>, now: I64): seq<Entry> {
    if order != [] && order[0].expiresAt <= now then Pruned(order[1..], now) else order
  }

  function Evicted(c: Cache): Cache
    requires c.capacity >= 1
    decreases |c.order|
  {
    if |c.order| >= c.capacity then
      Evicted(Cache(c.order[1..], Max(c.floor, c.order[0].issuedAt), c.capacity))
    else c
  }

  /** Whether a document is refused, once the cache is pruned. */
  predicate Known(c: Cache, key: Key, issuedAt: I64) {
    issuedAt <= c.floor || key in Keys(c.order)
  }

  function Looked(c: Cache, now: I64): Cache {
    c.(order := Pruned(c.order, now))
  }

  function Inserted(c: Cache, key: Key, issuedAt: I64, now: I64): (Cache, bool)
    requires c.capacity >= 1
  {
    var p := Looked(c, now);
    if Known(p, key, issuedAt) then (p, false)
    else
      var e := Evicted(p);
      (e.(order := e.order + [Entry(key, Expiry(now), issuedAt)]), true)
  }

  class ReplayCache {
    var order: seq<Entry>
    var seen: set<Key>
    var floor: I64
    const capacity: nat

    /** `seen` is exactly the keys of the queue, each once, within capacity. */
    ghost predicate Valid()
      reads this
    {
      && capacity >= 1 && |order| <= capacity
      && seen == Keys(order) && Distinct(order)
    }

    ghost function Value(): Cache
      reads this
    {
      Cache(order, floor, capacity)
    }

    constructor (capacity: nat)
      ensures Valid() && Value() == Cache([], I64_MIN, Max(capacity, 1))
    {
      order, seen, floor := [], {}, I64_MIN;
      this.capacity := Max(capacity, 1);
    }

    method Prune(now: I64)
      requires Valid()
      modifies this
      ensures Valid() && Value() == Looked(old(Value()), now)
    {
      ghost var goal := Pruned(order, now);
      while order != [] && order[0].expiresAt <= now
        invariant Valid() && Pruned(order, now) == goal && floor == old(floor)
        decreases |order|
      {
        DropFirst(order);
        seen := seen - {order[0].key};
        order := order[1..];
      }
    }

    method Seen(host: string, nonce: Bytes, issuedAt: I64, now: I64) returns (r: bool)
      requires Valid()
      modifies this
      ensures Valid() && Value() == Looked(old(Value()), now)
      ensures r <==> Known(Value(), (host, nonce), issuedAt)
    {
      Prune(now);
      r := issuedAt <= floor || (host, nonce) in seen;
    }

    /** Record the pair; false if it may be a replay. */
    method Insert(host: string, nonce: Bytes, issuedAt: I64, now: I64) returns (r: bool)
      requires Valid()
      modifies this
      ensures Valid() && (Value(), r) == Inserted(old(Value()), (host, nonce), issuedAt, now)
    {
      Prune(now);
      if issuedAt <= floor {
        return false;
      }
      var key := (host, nonce);
      if key in seen {
        return false;
      }
      ghost var goal := Evicted(Value());
      while |order| >= capacity
        invariant Valid() && Evicted(Value()) == goal && key !in seen
        decreases |order|
      {
        DropFirst(order);
        var e := order[0];
        seen := seen - {e.key};
        floor := Max(floor, e.issuedAt);
        order := order[1..];
      }
      ghost var kept := order;
      seen := seen + {key};
      order := order + [Entry(key, AddI64(now, REPLAY_TTL_SECS), issuedAt)];
      KeysSnoc(kept, order[|kept|]);
      r := true;
    }
  }

  lemma DropFirst(order: seq<Entry>)
    requires order != [] && Distinct(order)
    ensures Keys(order[1..]) == Keys(order) - {order[0].key} && Distinct(order[1..])
  {
    forall k
      ensures k in Keys(order[1..]) <==> k in Keys(order) && k != order[0].key
    {
      if k in Keys(order) && k != order[0].key {
        var e :| e in order && e.key == k;
        assert e in order[1..];
      }
      if k in Keys(order[1..]) {
        var e :| e in order[1..] && e.key == k;
        var i :| 0 <= i < |order[1..]| && order[1..][i] == e;
        assert order[i + 1] == e;
      }
    }
  }

  lemma KeysSnoc(order: seq<Entry>, e: Entry)
    ensures Keys(order + [e]) == Keys(order) + {e.key}
  {
    forall k
      ensures k in Keys(order + [e]) <==> k in Keys(order) + {e.key}
    {
      if k in Keys(order) {
        var x :| x in order && x.key == k;
        assert x in order + [e];
      }
      assert e in order + [e];
    }
  }
}
