/** Attestation and short-path renewal over the replicated store, as interleaved
    steps. Store reads are linearizable and conditional writes are atomic; a write
    may also be applied and still be answered as failed. */
module Rotation {
  import opened Prelude
  import opened MachineInts
  import Rim

  type Jws = string

  /** What an SVID is issued from; `rest` stands for the fields no step looks at. */
  datatype Params = Params(policyId: string, rest: Bytes)

  datatype LastAttestation = LastAttestation(at: int, pcrDigest: Bytes, policyEpoch: nat)

  datatype Record = Record(params: Params, last: LastAttestation, jws: Jws, hostname: Option<string>, childPub: Bytes)

  datatype Origin = FromTpm | FromHostKey | FromRotation(parent: Jws)

  /** An issued SVID; `serial` counts issuances. */
  datatype Svid = Svid(subject: string, policyId: string, origin: Origin, serial: nat)

  /** How far a call has come. */
  datatype Phase =
    | AttestMinted(subject: string, record: Record)
    | AttestSent(sent: Jws)
    | Authenticated(presented: Jws)
    | Decided(presented: Jws, record: Record)
    | Minted(presented: Jws, record: Record, minted: Jws)
    | Fetched(presented: Jws, record: Record, minted: Jws, current: Record)
    | Renewed(sent: Jws)
    | Refused

  /** A successful swap: the record the decision read, the one replaced, its replacement. */
  datatype Swap = Swap(subject: string, decided: Record, before: Record, after: Record)

  /** `homes` (which record each stored SVID was stored in) and `swaps` are history. */
  datatype State = State(
    store: map<string, Record>,
    issued: map<Jws, Svid>,
    rim: seq<Rim.Op>,
    calls: map<nat, Phase>,
    homes: map<Jws, Record>,
    swaps: seq<Swap>)

  const START: State := State(map[], map[], [], map[], map[], [])

  datatype WriteAnswer = Answered | Failed(applied: bool)

  datatype Event =
    | ChangeRim(op: Rim.Op)
    | AttestTpm(id: nat, subject: string, digest: Bytes, now: I64, record: Record)
    | AttestHostKey(id: nat, subject: string, record: Record)
    | StoreRecord(id: nat, applied: bool)
    | Present(id: nat, jws: Jws)
    | LookUp(id: nat, readable: bool, renew: bool)
    | Mint(id: nat, jws: Jws)
    | Fetch(id: nat, readable: bool)
    | SwapBundle(id: nat, answer: WriteAnswer)

  /** Issued JWS values are fresh; a TPM attestation carries the policy the RIM
      answers, a host-key attestation the reserved one. */
  predicate Enabled(s: State, e: Event) {
    match e
    case ChangeRim(_) => true
    case AttestTpm(id, _, digest, now, record) =>
      id !in s.calls && record.jws !in s.issued &&
        Rim.Lookup(Rim.Run(s.rim), digest, now) == Some(record.params.policyId)
    case AttestHostKey(id, _, record) =>
      id !in s.calls && record.jws !in s.issued && record.params.policyId == Rim.HOST_KEY_POLICY_ID
    case StoreRecord(id, _) => id in s.calls && s.calls[id].AttestMinted?
    case Present(id, jws) => id !in s.calls && jws in s.issued
    case LookUp(id, _, _) => id in s.calls && s.calls[id].Authenticated?
    case Mint(id, jws) => id in s.calls && s.calls[id].Decided? && jws !in s.issued
    case Fetch(id, _) => id in s.calls && s.calls[id].Minted?
    case SwapBundle(id, _) => id in s.calls && s.calls[id].Fetched?
  }

  function Issue(s: State, jws: Jws, subject: string, policy: string, origin: Origin): State {
    s.(issued := s.issued[jws := Svid(subject, policy, origin, |s.issued|)])
  }

  function Put(s: State, subject: string, record: Record): State {
    s.(store := s.store[subject := record], homes := s.homes[record.jws := record])
  }

  function Goto(s: State, id: nat, phase: Phase): State {
    s.(calls := s.calls[id := phase])
  }

  /** The subject an SVID names; the empty string for one never issued. */
  function SubjectOf(s: State, jws: Jws): string {
    if jws in s.issued then s.issued[jws].subject else ""
  }

  /** The stored record, if it can be read and still holds the presented SVID. */
  function StillCurrent(digest: Jws -> Bytes, s: State, presented: Jws, readable: bool): Option<Record> {
    var subject := SubjectOf(s, presented);
    if readable && subject in s.store && digest(s.store[subject].jws) == digest(presented)
    then Some(s.store[subject]) else None
  }

  function Step(digest: Jws -> Bytes, s: State, e: Event): State
    requires Enabled(s, e)
  {
    match e
    case ChangeRim(op) => s.(rim := s.rim + [op])
    case AttestTpm(id, subject, _, _, record) =>
      Goto(Issue(s, record.jws, subject, record.params.policyId, FromTpm), id, AttestMinted(subject, record))
    case AttestHostKey(id, subject, record) =>
      Goto(Issue(s, record.jws, subject, record.params.policyId, FromHostKey), id, AttestMinted(subject, record))
    case StoreRecord(id, applied) =>
      var call := s.calls[id];
      Goto(if applied then Put(s, call.subject, call.record) else s, id, AttestSent(call.record.jws))
    case Present(id, jws) =>
      Goto(s, id, if s.issued[jws].policyId == Rim.HOST_KEY_POLICY_ID then Authenticated(jws) else Refused)
    case LookUp(id, readable, renew) =>
      var presented := s.calls[id].presented;
      (match StillCurrent(digest, s, presented, readable)
       case None => Goto(s, id, Refused)
       case Some(record) => Goto(s, id, if renew then Decided(presented, record) else Refused))
    case Mint(id, jws) =>
      var call := s.calls[id];
      Goto(Issue(s, jws, SubjectOf(s, call.presented), call.record.params.policyId, FromRotation(call.presented)),
           id, Minted(call.presented, call.record, jws))
    case Fetch(id, readable) =>
      var call := s.calls[id];
      (match StillCurrent(digest, s, call.presented, readable)
       case None => Goto(s, id, Refused)
       case Some(current) => Goto(s, id, Fetched(call.presented, call.record, call.minted, current)))
    case SwapBundle(id, answer) =>
      var call := s.calls[id];
      var subject := SubjectOf(s, call.presented);
      var same := subject in s.store && s.store[subject] == call.current;
      var after := call.current.(jws := call.minted);
      var swapped := Put(s, subject, after).(swaps := s.swaps + [Swap(subject, call.record, call.current, after)]);
      if answer.Answered? then
        if same then Goto(swapped, id, Renewed(call.minted)) else Goto(s, id, Refused)
      else Goto(if same && answer.applied then swapped else s, id, Refused)
  }

  ghost predicate IsRun(digest: Jws -> Bytes, events: seq<Event>, run: seq<State>) {
    && |run| == |events| + 1 && run[0] == START
    && forall i | 0 <= i < |events| :: Enabled(run[i], events[i]) && run[i + 1] == Step(digest, run[i], events[i])
  }

  /** No two of these SVIDs have one digest. */
  ghost predicate CollisionFree(digest: Jws -> Bytes, issued: map<Jws, Svid>) {
    forall a, b | a in issued && b in issued && digest(a) == digest(b) :: a == b
  }

  // --------------------------------------------------------------- the invariant

  /** A stored SVID and the record it came in. */
  predicate GoodHome(s: State, jws: Jws, record: Record) {
    && jws in s.issued && record.jws == jws && record.params.policyId == s.issued[jws].policyId
  }

  predicate GoodStore(s: State) {
    && (forall j | j in s.homes :: GoodHome(s, j, s.homes[j]))
    && (forall sub | sub in s.store ::
          var r := s.store[sub];
          r.jws in s.homes && s.homes[r.jws] == r && s.issued[r.jws].subject == sub)
  }

  /** The JWS a call has minted and not stored. */
  function Pending(phase: Phase): Option<Jws> {
    match phase
    case AttestMinted(_, record) => Some(record.jws)
    case Minted(_, _, jws) => Some(jws)
    case Fetched(_, _, jws, _) => Some(jws)
    case _ => None
  }

  /** The home of a presented SVID is what the call has read. */
  predicate ReadHome(s: State, presented: Jws, record: Record) {
    presented in s.homes && s.homes[presented] == record
  }

  predicate GoodCall(s: State, phase: Phase) {
    && (Pending(phase).Some? ==> Pending(phase).value in s.issued && Pending(phase).value !in s.homes)
    && match phase
       case AttestMinted(subject, record) =>
         s.issued[record.jws].subject == subject && s.issued[record.jws].policyId == record.params.policyId
       case AttestSent(_) => true
       case Authenticated(p) => p in s.issued
       case Decided(p, r) => ReadHome(s, p, r)
       case Minted(p, r, j) => ReadHome(s, p, r) && SameClaims(s, p, j)
       case Fetched(p, r, j, cur) => ReadHome(s, p, r) && ReadHome(s, p, cur) && SameClaims(s, p, j)
       case Renewed(j) => j in s.homes
       case Refused => true
  }

  predicate SameClaims(s: State, parent: Jws, child: Jws) {
    && parent in s.issued && child in s.issued
    && s.issued[parent].subject == s.issued[child].subject && s.issued[parent].policyId == s.issued[child].policyId
  }

  predicate GoodSwap(s: State, w: Swap) {
    && w.decided == w.before && w.after == w.before.(jws := w.after.jws)
    && w.before.jws in s.homes && w.after.jws in s.homes && w.before.jws != w.after.jws
    && SubjectOf(s, w.before.jws) == w.subject
    && w.subject in s.store && s.store[w.subject].jws != w.before.jws
  }

  predicate GoodSvid(s: State, v: Svid) {
    match v.origin
    case FromTpm => !Rim.IsReserved(v.policyId)
    case FromHostKey => v.policyId == Rim.HOST_KEY_POLICY_ID
    case FromRotation(p) =>
      p in s.issued && s.issued[p].serial < v.serial && s.issued[p].policyId == v.policyId &&
        s.issued[p].subject == v.subject
  }

  ghost predicate Inv(s: State) {
    && GoodStore(s)
    && (forall id | id in s.calls :: GoodCall(s, s.calls[id]))
    && (forall a, b | a in s.calls && b in s.calls && a != b && Pending(s.calls[a]).Some? ::
        Pending(s.calls[a]) != Pending(s.calls[b]))
    && (forall i | 0 <= i < |s.swaps| :: GoodSwap(s, s.swaps[i]))
    && (forall i, j | 0 <= i < j < |s.swaps| :: s.swaps[i].before.jws != s.swaps[j].before.jws)
    && (forall j | j in s.issued :: GoodSvid(s, s.issued[j]) && s.issued[j].serial < |s.issued|)
  }

  // ------------------------------------------------------------ every step keeps it

  /** What an issuance or a store write leaves true of the other calls, swaps and SVIDs. */
  ghost predicate Grows(s: State, t: State) {
    && (forall j | j in s.issued :: j in t.issued && t.issued[j] == s.issued[j])
    && (forall j | j in s.homes :: j in t.homes && t.homes[j] == s.homes[j])
  }

  lemma CallsKept(s: State, t: State, id: nat, phase: Phase)
    requires Inv(s) && Grows(s, t) && t.calls == s.calls[id := phase]
    requires forall a | a in s.calls && a != id && Pending(s.calls[a]).Some? :: Pending(s.calls[a]).value !in t.homes
    requires GoodCall(t, phase)
    requires Pending(phase).Some? ==> forall a | a in s.calls && a != id :: Pending(s.calls[a]) != Pending(phase)
    ensures forall a | a in t.calls :: GoodCall(t, t.calls[a])
    ensures forall a, b | a in t.calls && b in t.calls && a != b && Pending(t.calls[a]).Some? ::
            Pending(t.calls[a]) != Pending(t.calls[b])
  {
    forall a | a in t.calls
      ensures GoodCall(t, t.calls[a])
    {
      if a != id {
        assert GoodCall(s, s.calls[a]);
      }
    }
  }

  /** A call moves on without touching store or issuance. */
  lemma MoveKeeps(s: State, id: nat, phase: Phase)
    requires Inv(s) && GoodCall(s, phase)
    requires Pending(phase).Some? ==> id in s.calls && Pending(s.calls[id]) == Pending(phase)
    ensures Inv(Goto(s, id, phase))
  {
    var t := Goto(s, id, phase);
    forall a | a in s.calls && a != id && Pending(s.calls[a]).Some?
      ensures Pending(s.calls[a]).value !in t.homes
    {
      assert GoodCall(s, s.calls[a]);
    }
    CallsKept(s, t, id, phase);
    forall i | 0 <= i < |t.swaps|
      ensures GoodSwap(t, t.swaps[i])
    {
      assert GoodSwap(s, s.swaps[i]);
    }
    forall j | j in t.issued
      ensures GoodSvid(t, t.issued[j])
    {
      assert GoodSvid(s, s.issued[j]);
    }
  }

  lemma IssueKeeps(s: State, jws: Jws, subject: string, policy: string, origin: Origin, id: nat, phase: Phase)
    requires Inv(s) && jws !in s.issued && Pending(phase) == Some(jws)
    requires GoodSvid(s, Svid(subject, policy, origin, |s.issued|))
    requires GoodCall(Issue(s, jws, subject, policy, origin), phase)
    ensures Inv(Goto(Issue(s, jws, subject, policy, origin), id, phase))
  {
    var t := Goto(Issue(s, jws, subject, policy, origin), id, phase);
    assert jws !in s.homes by {
      assert forall j | j in s.homes :: GoodHome(s, j, s.homes[j]);
    }
    forall a | a in s.calls && a != id && Pending(s.calls[a]).Some?
      ensures Pending(s.calls[a]).value !in t.homes && Pending(s.calls[a]).value != jws
    {
      assert GoodCall(s, s.calls[a]);
    }
    CallsKept(s, t, id, phase);
    forall i | 0 <= i < |t.swaps|
      ensures GoodSwap(t, t.swaps[i])
    {
      assert GoodSwap(s, s.swaps[i]) && GoodHome(s, s.swaps[i].before.jws, s.homes[s.swaps[i].before.jws]);
    }
    assert |t.issued| == |s.issued| + 1;
    forall j | j in t.issued
      ensures GoodSvid(t, t.issued[j]) && t.issued[j].serial < |t.issued|
    {
      if j != jws {
        assert GoodSvid(s, s.issued[j]);
      }
    }
    forall sub | sub in t.store
      ensures t.issued[t.store[sub].jws].subject == sub
    {
      assert GoodHome(s, s.store[sub].jws, s.homes[s.store[sub].jws]);
    }
  }

  /** A call stores the SVID it minted. */
  lemma PutKeeps(s: State, subject: string, record: Record, id: nat, phase: Phase)
    requires Inv(s) && id in s.calls && Pending(s.calls[id]) == Some(record.jws) && Pending(phase).None?
    requires GoodHome(s, record.jws, record) && s.issued[record.jws].subject == subject
    requires GoodCall(Put(s, subject, record), phase)
    ensures Inv(Goto(Put(s, subject, record), id, phase))
  {
    var t := Goto(Put(s, subject, record), id, phase);
    assert GoodCall(s, s.calls[id]);
    forall a | a in s.calls && a != id && Pending(s.calls[a]).Some?
      ensures Pending(s.calls[a]).value !in t.homes
    {
      assert GoodCall(s, s.calls[a]);
    }
    CallsKept(s, t, id, phase);
    forall i | 0 <= i < |t.swaps|
      ensures GoodSwap(t, t.swaps[i])
    {
      assert GoodSwap(s, s.swaps[i]);
    }
    forall j | j in t.issued
      ensures GoodSvid(t, t.issued[j])
    {
      assert GoodSvid(s, s.issued[j]);
    }
    forall j | j in t.homes
      ensures GoodHome(t, j, t.homes[j])
    {
      if j != record.jws {
        assert GoodHome(s, j, s.homes[j]);
      }
    }
  }

  /** A read that succeeds returns the home of the presented SVID. */
  lemma ReadIsHome(digest: Jws -> Bytes, s: State, presented: Jws, readable: bool)
    requires Inv(s) && CollisionFree(digest, s.issued) && presented in s.issued
    ensures var r := StillCurrent(digest, s, presented, readable);
            r.Some? ==> ReadHome(s, presented, r.value) && s.store[SubjectOf(s, presented)] == r.value
  {
    var r := StillCurrent(digest, s, presented, readable);
    if r.Some? {
      assert r.value.jws in s.homes && GoodHome(s, r.value.jws, s.homes[r.value.jws]);
    }
  }

  lemma SwapKeeps(digest: Jws -> Bytes, s: State, e: Event)
    requires Inv(s) && Enabled(s, e) && e.SwapBundle?
    ensures Inv(Step(digest, s, e))
  {
    var call := s.calls[e.id];
    var subject, after := SubjectOf(s, call.presented), call.current.(jws := call.minted);
    assert GoodCall(s, call);
    assert GoodHome(s, call.presented, call.current);
    MoveKeeps(s, e.id, Refused);
    if subject in s.store && s.store[subject] == call.current && (e.answer.Answered? || e.answer.applied) {
      var phase := if e.answer.Answered? then Renewed(call.minted) else Refused;
      var t := Goto(Put(s, subject, after), e.id, phase);
      PutKeeps(s, subject, after, e.id, phase);
      var w := Swap(subject, call.record, call.current, after);
      var u := t.(swaps := s.swaps + [w]);
      SwapLogged(s, t, u, w);
    }
  }

  /** Logging the swap that was just made. */
  lemma SwapLogged(s: State, t: State, u: State, w: Swap)
    requires Inv(s) && Inv(t) && t.swaps == s.swaps && u == t.(swaps := s.swaps + [w])
    requires GoodSwap(t, w) && w.subject in s.store && s.store[w.subject] == w.before
    ensures Inv(u)
  {
    forall i | 0 <= i < |s.swaps|
      ensures s.swaps[i].before.jws != w.before.jws
    {
      assert GoodSwap(s, s.swaps[i]);
      assert GoodSwap(t, s.swaps[i]);
      assert GoodHome(s, w.before.jws, s.homes[w.before.jws]);
    }
    forall a | a in u.calls
      ensures GoodCall(u, u.calls[a])
    {
      assert GoodCall(t, t.calls[a]);
    }
    forall i | 0 <= i < |u.swaps|
      ensures GoodSwap(u, u.swaps[i])
    {
      assert i < |s.swaps| ==> GoodSwap(t, t.swaps[i]);
    }
    forall j | j in u.issued
      ensures GoodSvid(u, u.issued[j])
    {
      assert GoodSvid(t, t.issued[j]);
    }
  }

  lemma AttestKeeps(digest: Jws -> Bytes, s: State, e: Event)
    requires Inv(s) && Enabled(s, e) && (e.AttestTpm? || e.AttestHostKey?)
    ensures Inv(Step(digest, s, e))
  {
    if e.AttestTpm? {
      Rim.LookupNeverReserved(s.rim, e.digest, e.now);
    }
    assert e.record.jws !in s.homes by {
      assert forall j | j in s.homes :: GoodHome(s, j, s.homes[j]);
    }
    IssueKeeps(s, e.record.jws, e.subject, e.record.params.policyId, if e.AttestTpm? then FromTpm else FromHostKey,
               e.id, AttestMinted(e.subject, e.record));
  }

  lemma MintKeeps(digest: Jws -> Bytes, s: State, e: Event)
    requires Inv(s) && Enabled(s, e) && e.Mint?
    ensures Inv(Step(digest, s, e))
  {
    var call := s.calls[e.id];
    assert GoodCall(s, call) && GoodHome(s, call.presented, s.homes[call.presented]);
    assert e.jws !in s.homes by {
      assert forall j | j in s.homes :: GoodHome(s, j, s.homes[j]);
    }
    IssueKeeps(s, e.jws, SubjectOf(s, call.presented), call.record.params.policyId, FromRotation(call.presented),
               e.id, Minted(call.presented, call.record, e.jws));
  }

  lemma StoreRecordKeeps(digest: Jws -> Bytes, s: State, e: Event)
    requires Inv(s) && Enabled(s, e) && e.StoreRecord?
    ensures Inv(Step(digest, s, e))
  {
    var call := s.calls[e.id];
    assert GoodCall(s, call);
    if e.applied {
      PutKeeps(s, call.subject, call.record, e.id, AttestSent(call.record.jws));
    } else {
      MoveKeeps(s, e.id, AttestSent(call.record.jws));
    }
  }

  lemma LookUpKeeps(digest: Jws -> Bytes, s: State, e: Event)
    requires CollisionFree(digest, s.issued) && Inv(s) && Enabled(s, e) && e.LookUp?
    ensures Inv(Step(digest, s, e))
  {
    var p := s.calls[e.id].presented;
    assert GoodCall(s, s.calls[e.id]);
    var r := StillCurrent(digest, s, p, e.readable);
    ReadIsHome(digest, s, p, e.readable);
    MoveKeeps(s, e.id, if r.Some? && e.renew then Decided(p, r.value) else Refused);
  }

  lemma FetchKeeps(digest: Jws -> Bytes, s: State, e: Event)
    requires CollisionFree(digest, s.issued) && Inv(s) && Enabled(s, e) && e.Fetch?
    ensures Inv(Step(digest, s, e))
  {
    var call := s.calls[e.id];
    var r := StillCurrent(digest, s, call.presented, e.readable);
    assert GoodCall(s, call);
    ReadIsHome(digest, s, call.presented, e.readable);
    MoveKeeps(s, e.id, if r.Some? then Fetched(call.presented, call.record, call.minted, r.value) else Refused);
  }

  lemma StepKeeps(digest: Jws -> Bytes, s: State, e: Event)
    requires CollisionFree(digest, s.issued) && Inv(s) && Enabled(s, e)
    ensures Inv(Step(digest, s, e))
  {
    match e
    case ChangeRim(op) => RimKeeps(s, s.(rim := s.rim + [op]));
    case AttestTpm(_, _, _, _, _) => AttestKeeps(digest, s, e);
    case AttestHostKey(_, _, _) => AttestKeeps(digest, s, e);
    case StoreRecord(_, _) => StoreRecordKeeps(digest, s, e);
    case Present(id, jws) =>
      MoveKeeps(s, id, if s.issued[jws].policyId == Rim.HOST_KEY_POLICY_ID then Authenticated(jws) else Refused);
    case LookUp(_, _, _) => LookUpKeeps(digest, s, e);
    case Mint(_, _) => MintKeeps(digest, s, e);
    case Fetch(_, _) => FetchKeeps(digest, s, e);
    case SwapBundle(_, _) => SwapKeeps(digest, s, e);
  }

  lemma RimKeeps(s: State, t: State)
    requires Inv(s) && t == s.(rim := t.rim)
    ensures Inv(t)
  {
    forall id | id in t.calls
      ensures GoodCall(t, t.calls[id])
    {
      assert GoodCall(s, s.calls[id]);
    }
    forall i | 0 <= i < |t.swaps|
      ensures GoodSwap(t, t.swaps[i])
    {
      assert GoodSwap(s, s.swaps[i]);
    }
    forall j | j in t.issued
      ensures GoodSvid(t, t.issued[j])
    {
      assert GoodSvid(s, s.issued[j]);
    }
    forall j | j in t.homes
      ensures GoodHome(t, j, t.homes[j])
    {
      assert GoodHome(s, j, s.homes[j]);
    }
  }

  /** What is issued stays issued. */
  lemma IssuedGrows(digest: Jws -> Bytes, s: State, e: Event)
    requires Enabled(s, e)
    ensures forall j | j in s.issued :: j in Step(digest, s, e).issued && Step(digest, s, e).issued[j] == s.issued[j]
  {
  }

  /** The invariant holds as long as no two SVIDs issued so far have one digest. */
  lemma {:induction false} RunKeeps(digest: Jws -> Bytes, events: seq<Event>, run: seq<State>, i: nat)
    requires IsRun(digest, events, run) && i < |run| && CollisionFree(digest, run[i].issued)
    ensures Inv(run[i])
  {
    if i > 0 {
      IssuedGrows(digest, run[i - 1], events[i - 1]);
      RunKeeps(digest, events, run, i - 1);
      StepKeeps(digest, run[i - 1], events[i - 1]);
    }
  }

  // ------------------------------------------------------------------ main results

  /** Rotation is linear: of all renewals racing from one SVID at most one lands, and
      the record it writes differs in the bundle alone from the very record the
      renewal decision checked. */
  lemma RotationIsLinear(digest: Jws -> Bytes, events: seq<Event>, run: seq<State>, i: nat)
    requires IsRun(digest, events, run) && i < |run| && CollisionFree(digest, run[i].issued)
    ensures forall a, b | 0 <= a < b < |run[i].swaps| :: run[i].swaps[a].before.jws != run[i].swaps[b].before.jws
    ensures forall a | 0 <= a < |run[i].swaps| ::
              var w := run[i].swaps[a];
              && w.before == w.decided && w.after.params == w.decided.params && w.after.last == w.decided.last
              && w.after.hostname == w.decided.hostname && w.after.childPub == w.decided.childPub
              && w.after.jws != w.decided.jws
  {
    RunKeeps(digest, events, run, i);
    forall a | 0 <= a < |run[i].swaps|
      ensures GoodSwap(run[i], run[i].swaps[a])
    {
    }
  }

  ghost predicate StoredAt(run: seq<State>, k: nat, jws: Jws) {
    k < |run| && exists sub :: sub in run[k].store && run[k].store[sub].jws == jws
  }

  lemma {:induction false} HomeWasStored(digest: Jws -> Bytes, events: seq<Event>, run: seq<State>, i: nat, jws: Jws)
    requires IsRun(digest, events, run) && i < |run| && CollisionFree(digest, run[i].issued) && jws in run[i].homes
    ensures exists k :: 0 <= k <= i && StoredAt(run, k, jws)
  {
    if i > 0 {
      var s, e := run[i - 1], events[i - 1];
      if jws in s.homes {
        IssuedGrows(digest, s, e);
        HomeWasStored(digest, events, run, i - 1, jws);
      } else {
        var subject := if e.StoreRecord? then s.calls[e.id].subject else SubjectOf(s, s.calls[e.id].presented);
        assert run[i].store[subject].jws == jws;
        assert StoredAt(run, i, jws);
      }
    }
  }

  /** No bundle is sent by `Rotate` that was not in the store at that point or before. */
  lemma RenewedWasStored(digest: Jws -> Bytes, events: seq<Event>, run: seq<State>, i: nat, id: nat)
    requires IsRun(digest, events, run) && i < |run| && CollisionFree(digest, run[i].issued)
    requires id in run[i].calls && run[i].calls[id].Renewed?
    ensures exists k :: 0 <= k <= i && StoredAt(run, k, run[i].calls[id].sent)
  {
    RunKeeps(digest, events, run, i);
    assert GoodCall(run[i], run[i].calls[id]);
    HomeWasStored(digest, events, run, i, run[i].calls[id].sent);
  }

  /** The attestation an SVID goes back to, through any number of rotations. */
  function Root(s: State, jws: Jws): Origin
    requires jws in s.issued
    requires forall j | j in s.issued :: GoodSvid(s, s.issued[j])
    decreases s.issued[jws].serial
  {
    var v := s.issued[jws];
    if v.origin.FromRotation? then
      assert GoodSvid(s, v);
      Root(s, v.origin.parent)
    else v.origin
  }

  lemma {:induction false} RootTier(s: State, jws: Jws)
    requires jws in s.issued && forall j | j in s.issued :: GoodSvid(s, s.issued[j])
    ensures s.issued[jws].policyId == Rim.HOST_KEY_POLICY_ID <==> Root(s, jws) == FromHostKey
    decreases s.issued[jws].serial
  {
    var v := s.issued[jws];
    assert GoodSvid(s, v);
    match v.origin
    case FromTpm => HostKeyIsReserved();
    case FromHostKey =>
    case FromRotation(p) => RootTier(s, p);
  }

  lemma HostKeyIsReserved()
    ensures Rim.IsReserved(Rim.HOST_KEY_POLICY_ID)
  {
    assert Rim.HOST_KEY_POLICY_ID == [] + Rim.HOST_KEY_POLICY_ID + [];
    assert Rim.SpellsHostKey(Rim.HOST_KEY_POLICY_ID);
    Rim.ReservedIffSpelling(Rim.HOST_KEY_POLICY_ID);
  }

  /** Tier integrity: an SVID reads as host-key tier exactly when it descends, through
      any number of rotations, from a host-key attestation. */
  lemma TierIntegrity(digest: Jws -> Bytes, events: seq<Event>, run: seq<State>, i: nat, jws: Jws)
    requires IsRun(digest, events, run) && i < |run| && CollisionFree(digest, run[i].issued) && jws in run[i].issued
    ensures forall j | j in run[i].issued :: GoodSvid(run[i], run[i].issued[j])
    ensures run[i].issued[jws].policyId == Rim.HOST_KEY_POLICY_ID <==> Root(run[i], jws) == FromHostKey
  {
    RunKeeps(digest, events, run, i);
    RootTier(run[i], jws);
  }
}
