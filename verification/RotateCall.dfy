/** `Rotate` as it is executed, with the steps of other calls between its store
    accesses: whatever it does is a run of the machine in Rotation. */
module RotateCall {
  import opened Prelude
  import opened Rotation
  import opened Runs
  import Rim

  function Next(digest: Jws -> Bytes): (State, Event, State) -> bool {
    (s: State, e: Event, t: State) => Enabled(s, e) && t == Step(digest, s, e)
  }

  predicate Concerns(e: Event, id: nat) {
    !e.ChangeRim? && e.id == id
  }

  /** Another call's step leaves this call and every issued SVID as they were. */
  lemma OtherStep(digest: Jws -> Bytes, s: State, e: Event, id: nat)
    requires Enabled(s, e) && !Concerns(e, id) && id in s.calls
    ensures var t := Step(digest, s, e);
            && id in t.calls && t.calls[id] == s.calls[id]
            && forall j | j in s.issued :: j in t.issued && t.issued[j] == s.issued[j]
  {
  }

  datatype BundleSwap = Replaced | Superseded | StoreFailed

  datatype RotateError = ReattestRequired | UnknownSubject | StoreUnavailable | IssuerUnavailable

  /** What a call meets: the steps of other calls before each access, what the store
      answers, the renewal decision, and the SVID the issuer mints (None: it fails). */
  datatype Weather = Weather(
    beforeLookUp: seq<Event>,
    lookUpReadable: bool,
    renew: bool,
    minted: Option<Jws>,
    beforeFetch: seq<Event>,
    fetchReadable: bool,
    beforeSwap: seq<Event>,
    answer: WriteAnswer)

  /** The state after the other calls have taken those of the steps that they can. */
  function Disturbed(digest: Jws -> Bytes, s: State, id: nat, steps: seq<Event>): State {
    if steps == [] then s
    else
      var t, last := Disturbed(digest, s, id, steps[..|steps| - 1]), steps[|steps| - 1];
      if !Concerns(last, id) && Enabled(t, last) then Step(digest, t, last) else t
  }

  /** The stored record of the subject holds the presented SVID. */
  predicate Holds(digest: Jws -> Bytes, s: State, subject: string, presented: Jws) {
    subject in s.store && digest(s.store[subject].jws) == digest(presented)
  }

  /** From the state before the fetch: the record is there, still there at the swap, and
      the answer comes back. */
  predicate SwapLands(digest: Jws -> Bytes, s: State, id: nat, subject: string, presented: Jws, record: Record,
                      minted: Jws,
                      w: Weather)
  {
    var atFetch := Disturbed(digest, s, id, w.beforeFetch);
    w.fetchReadable && Holds(digest, atFetch, subject, presented) &&
    var current := atFetch.store[subject];
    var atSwap := Disturbed(digest, Goto(atFetch, id, Fetched(presented, record, minted, current)), id, w.beforeSwap);
    subject in atSwap.store && atSwap.store[subject] == current && w.answer.Answered?
  }

  /** When a renewal succeeds: a host-key SVID, current when looked up, due no attestation,
      a new SVID minted, and the swap lands. */
  predicate Succeeds(digest: Jws -> Bytes, s: State, id: nat, presented: Jws, w: Weather)
    requires presented in s.issued
  {
    var subject := s.issued[presented].subject;
    var look := Disturbed(digest, Goto(s, id, Authenticated(presented)), id, w.beforeLookUp);
    && s.issued[presented].policyId == Rim.HOST_KEY_POLICY_ID
    && w.lookUpReadable && w.renew && Holds(digest, look, subject, presented)
    && w.minted.Some? && w.minted.value !in look.issued
    && var record, minted := look.store[subject], w.minted.value;
       var decided := Goto(look, id, Decided(presented, record));
       var mint := Goto(Issue(decided, minted, subject, record.params.policyId, FromRotation(presented)), id,
                        Minted(presented, record, minted));
       SwapLands(digest, mint, id, subject, presented, record, minted, w)
  }

  /** With no other call in between, that is: the stored record holds the presented SVID,
      nothing fails, and the SVID minted is new. */
  lemma UndisturbedSucceedsIff(digest: Jws -> Bytes, s: State, id: nat, presented: Jws, w: Weather)
    requires presented in s.issued && w.beforeLookUp == w.beforeFetch == w.beforeSwap == []
    ensures Succeeds(digest, s, id, presented, w) <==>
            && s.issued[presented].policyId == Rim.HOST_KEY_POLICY_ID &&
               Holds(digest, s, s.issued[presented].subject, presented)
            && w.lookUpReadable && w.renew && w.minted.Some? && w.minted.value !in s.issued
            && w.fetchReadable && w.answer.Answered?
  {
  }

  /** So every run of the calls below is a run of the machine. */
  lemma LeadsIsRun(digest: Jws -> Bytes, events: seq<Event>, t: State) returns (run: seq<State>)
    requires Leads(Next(digest), START, events, t)
    ensures IsRun(digest, events, run) && run[|events|] == t
  {
    run := StatesOnTheWay(Next(digest), START, events, t);
    forall i | 0 <= i < |events|
      ensures Enabled(run[i], events[i]) && run[i + 1] == Step(digest, run[i], events[i])
    {
      assert Next(digest)(run[i], events[i], run[i + 1]);
    }
  }

  class Cmis {
    const digest: Jws -> Bytes
    var s: State
    ghost var events: seq<Event>

    ghost predicate Valid()
      reads this
    {
      Leads(Next(digest), START, events, s)
    }

    constructor (digest: Jws -> Bytes)
      ensures Valid() && s == START && this.digest == digest
    {
      this.digest := digest;
      s := START;
      events := [];
    }

    method Take(e: Event)
      requires Valid() && Enabled(s, e)
      modifies this
      ensures Valid() && s == Step(digest, old(s), e)
    {
      LeadsOn(Next(digest), START, events, s, e, Step(digest, s, e));
      s := Step(digest, s, e);
      events := events + [e];
    }

    ghost predicate At(id: nat, phase: Phase)
      reads this
    {
      Valid() && id in s.calls && s.calls[id] == phase
    }

    /** The other calls take those of the steps that they can. */
    method Others(id: nat, steps: seq<Event>, ghost phase: Phase, jws: Jws)
      requires At(id, phase) && jws in s.issued
      modifies this
      ensures At(id, phase) && jws in s.issued && s.issued[jws] == old(s).issued[jws]
      ensures s == Disturbed(digest, old(s), id, steps)
    {
      for i := 0 to |steps|
        invariant At(id, phase) && jws in s.issued && s.issued[jws] == old(s).issued[jws]
        invariant s == Disturbed(digest, old(s), id, steps[..i])
      {
        assert steps[..i + 1][..i] == steps[..i] && steps[..i + 1][i] == steps[i];
        if !Concerns(steps[i], id) && Enabled(s, steps[i]) {
          OtherStep(digest, s, steps[i], id);
          Take(steps[i]);
        }
      }
      assert steps[..|steps|] == steps;
    }

    /** Steps a and b: the presented SVID and its tier. */
    method PresentSvid(id: nat, presented: Jws) returns (renews: bool)
      requires Valid() && id !in s.calls && presented in s.issued
      modifies this
      ensures At(id, if renews then Authenticated(presented) else Refused) && s.issued == old(s).issued
      ensures renews <==> s.issued[presented].policyId == Rim.HOST_KEY_POLICY_ID
      ensures renews ==> s == Goto(old(s), id, Authenticated(presented))
    {
      renews := s.issued[presented].policyId == Rim.HOST_KEY_POLICY_ID;
      Take(Present(id, presented));
    }

    /** Steps c, d and e: read the record, compare its SVID, decide. */
    method DecideRenewal(id: nat, presented: Jws, w: Weather) returns (r: Result<Record, RotateError>)
      requires At(id, Authenticated(presented)) && presented in s.issued
      modifies this
      ensures s.issued == old(s).issued
      ensures At(id, if r.Ok? then Decided(presented, r.value) else Refused)
      ensures var stored := old(s).store; var subject := s.issued[presented].subject;
              && (r.Ok? <==> w.lookUpReadable && w.renew && Holds(digest, old(s), subject, presented))
              && (r.Ok? ==> r.value == stored[subject] && s == Goto(old(s), id, Decided(presented, r.value)))
              && (r == Err(StoreUnavailable) <==> !w.lookUpReadable)
              && (r == Err(UnknownSubject) <==> w.lookUpReadable && subject !in stored)
    {
      var subject, stored := s.issued[presented].subject, s.store;
      Take(LookUp(id, w.lookUpReadable, w.renew));
      if !w.lookUpReadable {
        return Err(StoreUnavailable);
      }
      if subject !in stored {
        return Err(UnknownSubject);
      }
      var record := stored[subject];
      if digest(record.jws) != digest(presented) {
        return Err(ReattestRequired);
      }
      if !w.renew {
        return Err(ReattestRequired);
      }
      r := Ok(record);
    }

    method IssueRenewal(id: nat, presented: Jws, record: Record, minted: Jws)
      requires At(id, Decided(presented, record)) && presented in s.issued && minted !in s.issued
      modifies this
      ensures At(id, Minted(presented, record, minted)) && presented in s.issued &&
              s.issued[presented] == old(s).issued[presented]
      ensures var subject := old(s).issued[presented].subject;
              s == Goto(Issue(old(s), minted, subject, record.params.policyId, FromRotation(presented)), id,
                        Minted(presented, record, minted))
    {
      Take(Mint(id, minted));
    }

    /** The first half of the swap: the record to replace, if it still holds the
        presented SVID. */
    method FetchCurrent(id: nat, presented: Jws, record: Record, minted: Jws, readable: bool)
      returns (r: Result<Record, BundleSwap>)
      requires At(id, Minted(presented, record, minted)) && presented in s.issued
      modifies this
      ensures s.issued == old(s).issued
      ensures At(id, if r.Ok? then Fetched(presented, record, minted, r.value) else Refused)
      ensures r.Err? ==> r.error == if readable then Superseded else StoreFailed
      ensures var subject := old(s).issued[presented].subject;
              && (r.Ok? <==> readable && Holds(digest, old(s), subject, presented))
              && (r.Ok? ==>
                    && r.value == old(s).store[subject]
                    && s == Goto(old(s), id, Fetched(presented, record, minted, r.value)))
    {
      var subject, stored := s.issued[presented].subject, s.store;
      Take(Fetch(id, readable));
      if !readable {
        return Err(StoreFailed);
      }
      if subject !in stored || digest(stored[subject].jws) != digest(presented) {
        return Err(Superseded);
      }
      r := Ok(stored[subject]);
    }

    /** The second half: the compare-and-swap on the whole record. */
    method SwapIfUnchanged(id: nat, presented: Jws, record: Record, minted: Jws, current: Record, answer: WriteAnswer)
      returns (swap: BundleSwap)
      requires At(id, Fetched(presented, record, minted, current)) && presented in s.issued
      modifies this
      ensures At(id, if swap == Replaced then Renewed(minted) else Refused)
      ensures swap == Replaced ==>
                var subject := old(s).issued[presented].subject;
                subject in old(s).store && old(s).store[subject] == current &&
                s.store == old(s).store[subject := current.(jws := minted)]
      ensures var subject := old(s).issued[presented].subject;
              swap == Replaced <==> subject in old(s).store && old(s).store[subject] == current && answer.Answered?
      ensures swap == StoreFailed <==> answer.Failed?
    {
      var subject := s.issued[presented].subject;
      var same := subject in s.store && s.store[subject] == current;
      Take(SwapBundle(id, answer));
      if answer.Failed? {
        return StoreFailed;
      }
      swap := if same then Replaced else Superseded;
    }

    method ReplaceBundleIfCurrent(id: nat, presented: Jws, record: Record, minted: Jws, w: Weather)
      returns (swap: BundleSwap)
      requires At(id, Minted(presented, record, minted)) && presented in s.issued
      modifies this
      ensures At(id, if swap == Replaced then Renewed(minted) else Refused)
      ensures swap == Replaced ==>
                var subject := old(s).issued[presented].subject;
                subject in s.store && s.store[subject].jws == minted
      ensures swap == Replaced <==>
              SwapLands(digest, old(s), id, old(s).issued[presented].subject, presented, record, minted, w)
    {
      Others(id, w.beforeFetch, Minted(presented, record, minted), presented);
      var fetched := FetchCurrent(id, presented, record, minted, w.fetchReadable);
      if fetched.Err? {
        return fetched.error;
      }
      Others(id, w.beforeSwap, Fetched(presented, record, minted, fetched.value), presented);
      swap := SwapIfUnchanged(id, presented, record, minted, fetched.value, w.answer);
    }

    /** An SVID is returned exactly when the renewal succeeds, and only when this very call
        has stored it; the call ends where the machine's steps end. */
    method Rotate(id: nat, presented: Jws, w: Weather) returns (r: Result<Jws, RotateError>)
      requires Valid() && id !in s.calls && presented in s.issued
      modifies this
      ensures Valid() && id in s.calls
      ensures r.Ok? ==>
                var subject := old(s).issued[presented].subject;
                && w.minted == Some(r.value) && s.calls[id] == Renewed(r.value)
                && subject in s.store && s.store[subject].jws == r.value
      ensures r.Ok? <==> Succeeds(digest, old(s), id, presented, w)
      ensures r.Err? ==> !s.calls[id].Renewed?
      ensures old(s).issued[presented].policyId != Rim.HOST_KEY_POLICY_ID ==> r == Err(ReattestRequired)
    {
      var renews := PresentSvid(id, presented);
      if !renews {
        return Err(ReattestRequired);
      }
      Others(id, w.beforeLookUp, Authenticated(presented), presented);
      var decided := DecideRenewal(id, presented, w);
      if decided.Err? {
        return Err(decided.error);
      }
      if w.minted.None? || w.minted.value in s.issued {
        return Err(IssuerUnavailable);
      }
      IssueRenewal(id, presented, decided.value, w.minted.value);
      var swap := ReplaceBundleIfCurrent(id, presented, decided.value, w.minted.value, w);
      match swap
      case Replaced => r := Ok(w.minted.value);
      case Superseded => r := Err(ReattestRequired);
      case StoreFailed => r := Err(StoreUnavailable);
    }
  }
}
