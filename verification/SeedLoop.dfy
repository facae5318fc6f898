/** One node's loop over the shared register, with the other nodes' steps in between:
    whatever it does is a run of the cluster. */
module SeedLoop {
  import opened Prelude
  import opened IssuerSeed
  import opened Runs

  const NEXT: (Cluster, Event, Cluster) -> bool :=
    (s: Cluster, e: Event, t: Cluster) => Enabled(s, e) && t == Step(s, e)

  /** So every run of the loop below is a run of the cluster. */
  lemma LeadsIsRun(disks: seq<Option<Bytes>>, events: seq<Event>, t: Cluster) returns (run: seq<Cluster>)
    requires Leads(NEXT, Fresh(disks), events, t)
    ensures IsRun(disks, events, run) && run[|events|] == t
  {
    run := StatesOnTheWay(NEXT, Fresh(disks), events, t);
    forall i | 0 <= i < |events|
      ensures Enabled(run[i], events[i]) && run[i + 1] == Step(run[i], events[i])
    {
      assert NEXT(run[i], events[i], run[i + 1]);
    }
  }

  /** What one turn of the loop meets: the steps of other nodes before the read and
      before the compare-and-set, the answers, and the leadership and deadline. */
  datatype Turn = Turn(
    beforeRead: seq<Event>,
    readFails: bool,
    isLeader: bool,
    pastDeadline: bool,
    coined: Bytes,
    beforeSet: seq<Event>,
    setFails: bool,
    setApplied: bool)

  datatype SeedError = StoreFailed | BadLength(length: nat)

  class SharedCluster {
    var s: Cluster
    ghost const disks0: seq<Option<Bytes>>
    ghost var events: seq<Event>

    ghost predicate Valid()
      reads this
    {
      Inv(s) && Leads(NEXT, Fresh(disks0), events, s)
    }

    constructor (disks: seq<Option<Bytes>>)
      ensures Valid() && s == Fresh(disks) && disks0 == disks
    {
      s := Fresh(disks);
      disks0 := disks;
      events := [];
    }

    method Take(e: Event)
      requires Valid() && Enabled(s, e)
      modifies this
      ensures Valid() && s == Step(old(s), e) && (old(s).register.Some? ==> s.register == old(s).register)
    {
      LeadsOn(NEXT, Fresh(disks0), events, s, e, Step(s, e));
      StepKeeps(s, e);
      s := Step(s, e);
      events := events + [e];
    }

    /** The other nodes take those of the steps that they can. */
    method Others(n: nat, steps: seq<Event>)
      requires Valid()
      modifies this
      ensures Valid() && (old(s).register.Some? ==> s.register == old(s).register)
      ensures |s.phases| == |old(s).phases| && |s.disks| == |old(s).disks|
      ensures n < |s.phases| ==> s.phases[n] == old(s).phases[n] && s.disks[n] == old(s).disks[n]
      ensures steps == [] ==> s == old(s)
    {
      for i := 0 to |steps|
        invariant Valid() && (old(s).register.Some? ==> s.register == old(s).register)
        invariant |s.phases| == |old(s).phases| && |s.disks| == |old(s).disks|
        invariant n < |s.phases| ==> s.phases[n] == old(s).phases[n] && s.disks[n] == old(s).disks[n]
        invariant i == 0 ==> s == old(s)
      {
        if steps[i].n != n && Enabled(s, steps[i]) {
          Take(steps[i]);
        }
      }
    }

    method FetchIssuerSeed(n: nat, fails: bool) returns (r: Result<Option<Bytes>, SeedError>)
      requires Valid() && Enabled(s, Read(n, fails))
      modifies this
      ensures Valid() && s == Step(old(s), Read(n, fails))
      ensures r == if fails then Err(StoreFailed) else Ok(s.register)
    {
      r := if fails then Err(StoreFailed) else Ok(s.register);
      Take(Read(n, fails));
    }

    method TryStoreIssuerSeed(n: nat, candidate: Bytes, fails: bool, applied: bool) returns (r: Result<bool, SeedError>)
      requires Valid() && Enabled(s, CompareAndSet(n, fails, applied)) && s.phases[n] == Proposing(candidate)
      modifies this
      ensures Valid() && s == Step(old(s), CompareAndSet(n, fails, applied))
      ensures r == if fails then Err(StoreFailed) else Ok(old(s).register.None?)
      ensures r == Ok(true) ==> s.register == Some(candidate)
      ensures r == Ok(false) ==> s.register.Some?
    {
      r := if fails then Err(StoreFailed) else Ok(s.register.None?);
      Take(CompareAndSet(n, fails, applied));
    }
  }

  function ParseSeed(bytes: Bytes): Result<Bytes, SeedError> {
    if |bytes| == SEED_LEN then Ok(bytes) else Err(BadLength(|bytes|))
  }

  /** What a node brings forward in a turn: the seed on its disk, or else a minted one. */
  function Own(disk: Option<Bytes>, t: Turn): Bytes {
    if disk.Some? then disk.value else t.coined
  }

  /** What comes of bringing it forward with no one in the way. */
  function Established(disk: Option<Bytes>, t: Turn): Result<Bytes, SeedError> {
    if disk.Some? && |disk.value| != 32 then Err(BadLength(|disk.value|)) else Ok(Own(disk, t))
  }

  /** Nothing fails and no other node steps in. */
  predicate Undisturbed(t: Turn) {
    t.beforeRead == [] && t.beforeSet == [] && !t.readFails && !t.setFails
  }

  /** The turn of a node that read no seed: it brings one forward exactly as leader or past
      the deadline. The seed it establishes is the one on its disk, a minted one only
      without; None when the loop goes on. */
  method EstablishSeed(c: SharedCluster, n: nat, t: Turn) returns (r: Option<Result<Bytes, SeedError>>)
    requires c.Valid() && n < |c.s.phases| && c.s.phases[n].Absent? && c.s.register.None? && |t.coined| == SEED_LEN
    modifies c
    ensures c.Valid() && |c.s.phases| == |old(c.s).phases| && c.s.disks[n] == old(c.s).disks[n]
    ensures !t.isLeader && !t.pastDeadline ==>
              r == None && c.s == old(c.s).(phases := old(c.s).phases[n := Looping])
    ensures match r
            case None => c.s.phases[n].Looping? || c.s.phases[n].Lost?
            case Some(Ok(seed)) =>
              && seed == Own(old(c.s).disks[n], t) && |seed| == SEED_LEN && (t.isLeader || t.pastDeadline)
              && c.s.phases[n] == Returned(seed) && c.s.register == Some(seed)
            case Some(Err(_)) => c.s.phases[n].Errored?
    ensures (t.isLeader || t.pastDeadline) && t.beforeSet == [] && !t.setFails ==>
              r == Some(Established(old(c.s).disks[n], t))
  {
    var proposes := t.isLeader || t.pastDeadline;
    var disk := c.s.disks[n];
    c.Take(Propose(n, proposes, t.coined));
    if proposes {
      var candidate := t.coined;
      if disk.Some? {
        var parsed := ParseSeed(disk.value);
        if parsed.Err? {
          return Some(Err(parsed.error));
        }
        candidate := parsed.value;
      }
      c.Others(n, t.beforeSet);
      var stored := c.TryStoreIssuerSeed(n, candidate, t.setFails, t.setApplied);
      if stored.Err? {
        return Some(Err(stored.error));
      }
      if stored.value {
        return Some(Ok(candidate));
      }
    }
    r := None;
  }

  /** The loop returns the seed the cluster has, and leaves the cluster at a state its
      own steps lead to; None when the turns run out first. After a lost
      compare-and-set the register is set, so the next read that works ends it. */
  method ResolveClusterSeed(c: SharedCluster, n: nat, turns: seq<Turn>)
    returns (r: Option<Result<Bytes, SeedError>>, ghost won: bool)
    requires c.Valid() && n < |c.s.phases| && c.s.phases[n].Looping?
    requires forall t | t in turns :: |t.coined| == SEED_LEN
    modifies c
    ensures c.Valid() && n < |c.s.phases|
    ensures old(c.s).register.Some? ==> c.s.register == old(c.s).register
    ensures match r
            case None => c.s.phases[n].Looping? || (c.s.phases[n].Lost? && c.s.register.Some?)
            case Some(Ok(seed)) => c.s.phases[n] == Returned(seed) && c.s.register == Some(seed) && |seed| == SEED_LEN
            case Some(Err(_)) => c.s.phases[n].Errored?
    ensures old(c.s).register.Some? && turns != [] && !turns[0].readFails ==> r == Some(Ok(old(c.s).register.value))
    // its own compare-and-set won: with the seed on its disk, a minted one only without
    ensures won ==>
              && old(c.s).register.None?
              && exists t | t in turns :: (t.isLeader || t.pastDeadline) && r == Some(Ok(Own(old(c.s).disks[n], t)))
    // an undisturbed turn over an empty register proposes exactly as leader or past the deadline
    ensures turns != [] && old(c.s).register.None? && Undisturbed(turns[0]) ==>
              && (turns[0].isLeader || turns[0].pastDeadline ==>
                    r == Some(Established(old(c.s).disks[n], turns[0])) && won == r.value.Ok?)
              && (!turns[0].isLeader && !turns[0].pastDeadline && |turns| == 1 ==>
                    r == None && c.s == old(c.s) && !won)
  {
    won := false;
    for i := 0 to |turns|
      invariant c.Valid() && |c.s.phases| == |old(c.s).phases| && c.s.disks[n] == old(c.s).disks[n] && !won
      invariant i == 0 ==> c.s == old(c.s)
      invariant i > 0 && old(c.s).register.None? && Undisturbed(turns[0]) ==>
                  !turns[0].isLeader && !turns[0].pastDeadline && (i == 1 ==> c.s == old(c.s))
      invariant c.s.phases[n].Looping? || c.s.phases[n].Lost?
      invariant old(c.s).register.Some? ==> c.s.register == old(c.s).register
      invariant old(c.s).register.Some? ==> i == 0 || turns[0].readFails
    {
      var t := turns[i];
      assert t in turns;
      c.Others(n, t.beforeRead);
      var fetched := c.FetchIssuerSeed(n, t.readFails);
      if fetched.Err? {
        return Some(Err(fetched.error)), false;
      }
      if fetched.value.Some? {
        return Some(ParseSeed(fetched.value.value)), false;
      }
      r := EstablishSeed(c, n, t);
      if r.Some? {
        return r, r.value.Ok?;
      }
    }
    r := None;
  }
}
