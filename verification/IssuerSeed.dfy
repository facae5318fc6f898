/** Establishing the cluster's issuer seed: every node runs a read, propose,
    compare-and-set, retry loop over one shared register, under any leadership
    changes, deadlines, failures, restarts and interleavings. */
module IssuerSeed {
  import opened Prelude

  const SEED_LEN: nat := 32

  /** Where a node is in its loop. `Absent`: it read the register and found nothing;
      `Lost`: its compare-and-set was refused. */
  datatype Phase = Looping | Absent | Proposing(candidate: Bytes) | Lost | Returned(seed: Bytes) | Errored

  /** `minted` is history: every candidate a node has brought forward. */
  datatype Cluster = Cluster(register: Option<Bytes>, disks: seq<Option<Bytes>>, phases: seq<Phase>, minted: set<Bytes>)

  /** Node n is the leader or past its deadline (`mayPropose`), mints `coined` if its
      disk holds no seed; a store answer may be an error, applied or not. */
  datatype Event =
    | Read(n: nat, fails: bool)
    | Propose(n: nat, mayPropose: bool, coined: Bytes)
    | CompareAndSet(n: nat, fails: bool, applied: bool)
    | Mirror(n: nat, written: bool)
    | Restart(n: nat)

  predicate Enabled(s: Cluster, e: Event) {
    && |s.disks| == |s.phases| && e.n < |s.phases|
    && match e
       case Read(n, _) => s.phases[n].Looping? || s.phases[n].Lost?
       case Propose(n, _, coined) => s.phases[n].Absent? && |coined| == SEED_LEN
       case CompareAndSet(n, _, _) => s.phases[n].Proposing?
       case Mirror(n, _) => s.phases[n].Returned?
       case Restart(n) => true
  }

  function Parsed(bytes: Bytes): Phase {
    if |bytes| == SEED_LEN then Returned(bytes) else Errored
  }

  function At(s: Cluster, n: nat, phase: Phase): Cluster
    requires n < |s.phases|
  {
    s.(phases := s.phases[n := phase])
  }

  function Step(s: Cluster, e: Event): Cluster
    requires Enabled(s, e)
  {
    match e
    case Read(n, fails) =>
      if fails then At(s, n, Errored)
      else At(s, n, if s.register.Some? then Parsed(s.register.value) else Absent)
    case Propose(n, mayPropose, coined) =>
      if !mayPropose then At(s, n, Looping)
      else if s.disks[n].Some? && |s.disks[n].value| != SEED_LEN then At(s, n, Errored)
      else
        var candidate := if s.disks[n].Some? then s.disks[n].value else coined;
        At(s, n, Proposing(candidate)).(minted := s.minted + {candidate})
    case CompareAndSet(n, fails, applied) =>
      var candidate := s.phases[n].candidate;
      if fails then At(if applied && s.register.None? then s.(register := Some(candidate)) else s, n, Errored)
      else if s.register.None? then At(s.(register := Some(candidate)), n, Returned(candidate))
      else At(s, n, Lost)
    case Mirror(n, written) =>
      if written then s.(disks := s.disks[n := Some(s.phases[n].seed)]) else s
    case Restart(n) => At(s, n, Looping)
  }

  /** A fresh cluster of nodes whose disks hold anything at all. */
  function Fresh(disks: seq<Option<Bytes>>): Cluster {
    Cluster(None, disks, seq(|disks|, _ => Looping), {})
  }

  ghost predicate IsRun(disks: seq<Option<Bytes>>, events: seq<Event>, run: seq<Cluster>) {
    && |run| == |events| + 1 && run[0] == Fresh(disks)
    && forall i | 0 <= i < |events| :: Enabled(run[i], events[i]) && run[i + 1] == Step(run[i], events[i])
  }

  ghost predicate Inv(s: Cluster) {
    && |s.disks| == |s.phases|
    && (s.register.Some? ==> s.register.value in s.minted)
    && (forall c | c in s.minted :: |c| == SEED_LEN)
    && (forall n | 0 <= n < |s.phases| ::
          && (s.phases[n].Proposing? ==> s.phases[n].candidate in s.minted)
          && (s.phases[n].Lost? ==> s.register.Some?)
          && (s.phases[n].Returned? ==> s.register == Some(s.phases[n].seed)))
  }

  lemma StepKeeps(s: Cluster, e: Event)
    requires Inv(s) && Enabled(s, e)
    ensures Inv(Step(s, e))
    ensures s.register.Some? ==> Step(s, e).register == s.register
  {
    var t := Step(s, e);
    forall n | 0 <= n < |t.phases| && n != e.n
      ensures t.phases[n] == s.phases[n]
    {
    }
  }

  lemma {:induction false} RunKeeps(disks: seq<Option<Bytes>>, events: seq<Event>, run: seq<Cluster>, i: nat)
    requires IsRun(disks, events, run) && i < |run|
    ensures Inv(run[i])
  {
    if i > 0 {
      RunKeeps(disks, events, run, i - 1);
      StepKeeps(run[i - 1], events[i - 1]);
    }
  }

  /** The register is set at most once. */
  lemma {:induction false} SetOnce(disks: seq<Option<Bytes>>, events: seq<Event>, run: seq<Cluster>, i: nat, j: nat)
    requires IsRun(disks, events, run) && i <= j < |run| && run[i].register.Some?
    ensures run[j].register == run[i].register
    decreases j - i
  {
    if i < j {
      RunKeeps(disks, events, run, i);
      StepKeeps(run[i], events[i]);
      SetOnce(disks, events, run, i + 1, j);
    }
  }

  /** A seed that was on some node's disk at the start, or was minted by a node
      within the first i events. */
  ghost predicate Candidate(disks: seq<Option<Bytes>>, events: seq<Event>, i: nat, seed: Bytes) {
    || (exists n | 0 <= n < |disks| :: disks[n] == Some(seed))
    || (exists k | 0 <= k < i && k < |events| :: events[k].Propose? && events[k].coined == seed)
  }

  lemma {:induction false} MintedAreCandidates(disks: seq<Option<Bytes>>, events: seq<Event>, run: seq<Cluster>, i: nat)
    requires IsRun(disks, events, run) && i < |run|
    ensures |run[i].disks| == |disks|
    ensures forall c | c in run[i].minted :: Candidate(disks, events, i, c)
    ensures forall n | 0 <= n < |disks| ::
              run[i].disks[n] == disks[n] || (run[i].disks[n].Some? && run[i].disks[n].value in run[i].minted)
  {
    if i > 0 {
      var s, e := run[i - 1], events[i - 1];
      MintedAreCandidates(disks, events, run, i - 1);
      RunKeeps(disks, events, run, i - 1);
      forall c | c in run[i].minted
        ensures Candidate(disks, events, i, c)
      {
        if c in s.minted {
          assert Candidate(disks, events, i - 1, c);
        } else if s.disks[e.n].Some? {
          assert disks[e.n] == Some(c);
        } else {
          assert events[i - 1].coined == c;
        }
      }
    }
  }

  /** Agreement and validity: any two nodes that ever return, at any two moments of a
      run, return one seed; it is 32 bytes, and was on a node's disk or minted by one. */
  lemma Agreement(disks: seq<Option<Bytes>>, events: seq<Event>, run: seq<Cluster>, i: nat, n: nat, j: nat, m: nat)
    requires IsRun(disks, events, run) && i <= j < |run|
    requires n < |run[i].phases| && run[i].phases[n].Returned?
    requires m < |run[j].phases| && run[j].phases[m].Returned?
    ensures run[i].phases[n].seed == run[j].phases[m].seed
    ensures |run[i].phases[n].seed| == SEED_LEN && Candidate(disks, events, i, run[i].phases[n].seed)
  {
    MintedAreCandidates(disks, events, run, i);
    RunKeeps(disks, events, run, i);
    RunKeeps(disks, events, run, j);
    SetOnce(disks, events, run, i, j);
  }

  /** A node that lost the compare-and-set returns on its next successful read. */
  lemma LoserReturnsNext(disks: seq<Option<Bytes>>, events: seq<Event>, run: seq<Cluster>, i: nat)
    requires IsRun(disks, events, run) && i < |events|
    requires events[i].Read? && !events[i].fails && run[i].phases[events[i].n].Lost?
    ensures run[i].register.Some? && run[i + 1].phases[events[i].n] == Returned(run[i].register.value)
  {
    RunKeeps(disks, events, run, i);
  }

  // ---------------------------------------------------------- which seed is brought forward

  /** A turn past an empty read proposes exactly when the node may, and then the seed on its
      disk if there is one, and a minted one only if there is none; a disk seed of another
      length is an error. */
  lemma ProposesIff(s: Cluster, e: Event)
    requires Enabled(s, e) && e.Propose?
    ensures var disk, phase := s.disks[e.n], Step(s, e).phases[e.n];
            && (phase.Looping? <==> !e.mayPropose)
            && (phase.Errored? <==> e.mayPropose && disk.Some? && |disk.value| != 32)
            && (phase.Proposing? <==> e.mayPropose && (disk.Some? ==> |disk.value| == 32))
            && (phase.Proposing? && disk.Some? ==> phase.candidate == disk.value)
            && (phase.Proposing? && disk.None? ==> phase.candidate == e.coined)
            && Step(s, e).register == s.register && Step(s, e).disks == s.disks
  {
  }

  /** A compare-and-set sets an empty register to the candidate, and no other; the node
      returns the candidate exactly when it is told so. A failed answer may hide either. */
  lemma CompareAndSetIff(s: Cluster, e: Event)
    requires Enabled(s, e) && e.CompareAndSet?
    ensures var t, phase, c := Step(s, e), Step(s, e).phases[e.n], s.phases[e.n].candidate;
            && t.register == (if s.register.None? && (e.fails ==> e.applied) then Some(c) else s.register)
            && (phase == Returned(c) <==> !e.fails && s.register.None?)
            && (phase == Lost <==> !e.fails && s.register.Some?) && (phase == Errored <==> e.fails)
            && t.disks == s.disks
  {
  }

  /** What node n proposes is the seed on its disk, or without one what it minted for this. */
  ghost predicate OwnCandidate(events: seq<Event>, i: nat, n: nat, disk: Option<Bytes>, candidate: Bytes) {
    if disk.Some? then candidate == disk.value
    else exists k | 0 <= k < i && k < |events| ::
      events[k].Propose? && events[k].n == n && events[k].mayPropose && events[k].coined == candidate
  }

  lemma StepProposals(events: seq<Event>, s: Cluster, i: nat, n: nat)
    requires Inv(s) && i < |events| && Enabled(s, events[i]) && n < |s.phases|
    requires s.phases[n].Proposing? ==> OwnCandidate(events, i, n, s.disks[n], s.phases[n].candidate)
    ensures var t := Step(s, events[i]);
            t.phases[n].Proposing? ==> OwnCandidate(events, i + 1, n, t.disks[n], t.phases[n].candidate)
  {
    var e, t := events[i], Step(s, events[i]);
    if t.phases[n].Proposing? && t.disks[n].None? {
      if s.phases[n].Proposing? && e.n != n {
        var k :| 0 <= k < i && events[k].Propose? && events[k].n == n && events[k].mayPropose &&
                 events[k].coined == s.phases[n].candidate;
        assert k < i + 1;
      } else {
        assert e.Propose? && e.n == n && e.mayPropose && e.coined == t.phases[n].candidate;
      }
    }
  }

  lemma {:induction false} RunProposals(disks: seq<Option<Bytes>>, events: seq<Event>, run: seq<Cluster>, i: nat,
                                        n: nat)
    requires IsRun(disks, events, run) && i < |run| && n < |disks|
    ensures |run[i].phases| == |run[i].disks| == |disks|
    ensures run[i].phases[n].Proposing? ==> OwnCandidate(events, i, n, run[i].disks[n], run[i].phases[n].candidate)
  {
    if i > 0 {
      RunProposals(disks, events, run, i - 1, n);
      RunKeeps(disks, events, run, i - 1);
      StepProposals(events, run[i - 1], i - 1, n);
    }
  }

  /** The event that sets the register is a node's compare-and-set, and the seed is the one
      on that node's disk; a minted one only if its disk had none. */
  lemma SetterKeepsItsDiskSeed(disks: seq<Option<Bytes>>, events: seq<Event>, run: seq<Cluster>, i: nat)
    requires IsRun(disks, events, run) && i < |events| && run[i].register.None? && run[i + 1].register.Some?
    ensures events[i].CompareAndSet? && events[i].n < |run[i].disks|
    ensures OwnCandidate(events, i, events[i].n, run[i].disks[events[i].n], run[i + 1].register.value)
  {
    RunKeeps(disks, events, run, i);
    PhasesPerDisk(disks, events, run, i);
    RunProposals(disks, events, run, i, events[i].n);
  }

  lemma {:induction false} PhasesPerDisk(disks: seq<Option<Bytes>>, events: seq<Event>, run: seq<Cluster>, i: nat)
    requires IsRun(disks, events, run) && i < |run|
    ensures |run[i].phases| == |run[i].disks| == |disks|
  {
    if i > 0 {
      PhasesPerDisk(disks, events, run, i - 1);
    }
  }

  /** A disk holds what it held at the start, or a copy of the cluster's seed; a mirror
      write by a node that has returned makes it that copy. */
  lemma {:induction false} DisksMirrorTheSeed(disks: seq<Option<Bytes>>, events: seq<Event>, run: seq<Cluster>,
                                              i: nat, n: nat)
    requires IsRun(disks, events, run) && i < |run| && n < |disks|
    ensures |run[i].disks| == |disks|
    ensures run[i].disks[n] == disks[n] || (run[i].register.Some? && run[i].disks[n] == run[i].register)
    ensures i > 0 && events[i - 1] == Mirror(n, true) ==> run[i].register.Some? && run[i].disks[n] == run[i].register
  {
    if i > 0 {
      DisksMirrorTheSeed(disks, events, run, i - 1, n);
      RunKeeps(disks, events, run, i - 1);
      StepKeeps(run[i - 1], events[i - 1]);
    }
  }
}
