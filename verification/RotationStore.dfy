/** What the replicated store holds, over whole runs: exactly the last write that was
    applied for each subject, be it an attested record or a renewed bundle. */
module RotationStore {
  import opened Prelude
  import opened MachineInts
  import opened Rotation
  import Rim

  /** The record an event writes for the subject, if it writes one. */
  function Written(s: State, e: Event, subject: string): Option<Record>
    requires Enabled(s, e)
  {
    match e
    case StoreRecord(id, true) => if s.calls[id].subject == subject then Some(s.calls[id].record) else None
    case SwapBundle(id, answer) =>
      var call := s.calls[id];
      if && SubjectOf(s, call.presented) == subject && (answer.Answered? || answer.applied)
         && subject in s.store && s.store[subject] == call.current
      then Some(call.current.(jws := call.minted)) else None
    case _ => None
  }

  /** The last record written for the subject within the first i events. */
  ghost function LastWritten(digest: Jws -> Bytes, events: seq<Event>, run: seq<State>, i: nat,
                             subject: string): Option<Record>
    requires IsRun(digest, events, run) && i < |run|
  {
    if i == 0 then None
    else
      var w := Written(run[i - 1], events[i - 1], subject);
      if w.Some? then w else LastWritten(digest, events, run, i - 1, subject)
  }

  /** One event changes the store by what it writes, and by nothing else. */
  lemma StepWrites(digest: Jws -> Bytes, s: State, e: Event, subject: string)
    requires Enabled(s, e)
    ensures var t, w := Step(digest, s, e), Written(s, e, subject);
            && (w.Some? ==> subject in t.store && t.store[subject] == w.value)
            && (w.None? ==> (subject in t.store <==> subject in s.store))
            && (w.None? && subject in s.store ==> t.store[subject] == s.store[subject])
  {
  }

  /** In every state of every run the store maps a subject to exactly the last record
      written for it, and holds no subject that none was written for. */
  lemma {:induction false} StoreIsLastWritten(digest: Jws -> Bytes, events: seq<Event>, run: seq<State>, i: nat,
                                              subject: string)
    requires IsRun(digest, events, run) && i < |run|
    ensures subject in run[i].store <==> LastWritten(digest, events, run, i, subject).Some?
    ensures subject in run[i].store ==> LastWritten(digest, events, run, i, subject) == Some(run[i].store[subject])
  {
    if i > 0 {
      StoreIsLastWritten(digest, events, run, i - 1, subject);
      StepWrites(digest, run[i - 1], events[i - 1], subject);
    }
  }

  /** The event starts this call with an attestation of this subject and record. */
  predicate Attests(e: Event, id: nat, subject: string, record: Record) {
    || (e.AttestTpm? && e.id == id && e.subject == subject && e.record == record)
    || (e.AttestHostKey? && e.id == id && e.subject == subject && e.record == record)
  }

  lemma StepMints(digest: Jws -> Bytes, s: State, e: Event, id: nat)
    requires Enabled(s, e) && id in Step(digest, s, e).calls && Step(digest, s, e).calls[id].AttestMinted?
    ensures var phase := Step(digest, s, e).calls[id];
            (id in s.calls && s.calls[id] == phase) || Attests(e, id, phase.subject, phase.record)
  {
  }

  /** What a call is about to record is what it attested. */
  lemma {:induction false} MintedWasAttested(digest: Jws -> Bytes, events: seq<Event>, run: seq<State>, i: nat, id: nat)
    requires IsRun(digest, events, run) && i < |run| && id in run[i].calls && run[i].calls[id].AttestMinted?
    ensures exists k | 0 <= k < i :: Attests(events[k], id, run[i].calls[id].subject, run[i].calls[id].record)
  {
    if i > 0 {
      StepMints(digest, run[i - 1], events[i - 1], id);
      if !Attests(events[i - 1], id, run[i].calls[id].subject, run[i].calls[id].record) {
        MintedWasAttested(digest, events, run, i - 1, id);
      }
    }
  }

  /** A `record` write that is applied: from then on, until the next write for that subject,
      the store holds exactly the record that was attested. */
  lemma {:induction false} RecordIsStored(digest: Jws -> Bytes, events: seq<Event>, run: seq<State>, i: nat, j: nat)
    requires IsRun(digest, events, run) && i < j < |run| && events[i].StoreRecord? && events[i].applied
    requires forall k | i < k < j :: Written(run[k], events[k], run[i].calls[events[i].id].subject).None?
    ensures var call := run[i].calls[events[i].id];
            && call.subject in run[j].store && run[j].store[call.subject] == call.record
            && exists k | 0 <= k < i :: Attests(events[k], events[i].id, call.subject, call.record)
    decreases j
  {
    var call := run[i].calls[events[i].id];
    MintedWasAttested(digest, events, run, i, events[i].id);
    StoreIsLastWritten(digest, events, run, j, call.subject);
    LastWrittenIs(digest, events, run, i, j, call.subject, call.record);
  }

  lemma {:induction false} LastWrittenIs(digest: Jws -> Bytes, events: seq<Event>, run: seq<State>, i: nat, j: nat,
                                         subject: string, record: Record)
    requires IsRun(digest, events, run) && i < j < |run| && Written(run[i], events[i], subject) == Some(record)
    requires forall k | i < k < j :: Written(run[k], events[k], subject).None?
    ensures LastWritten(digest, events, run, j, subject) == Some(record)
    decreases j
  {
    if i + 1 < j {
      assert Written(run[j - 1], events[j - 1], subject).None?;
      LastWrittenIs(digest, events, run, i, j - 1, subject, record);
    }
  }

  // -------------------------------------------------------------------- it does happen

  lemma RunSnoc(digest: Jws -> Bytes, events: seq<Event>, run: seq<State>, e: Event)
    requires IsRun(digest, events, run) && Enabled(run[|events|], e)
    ensures IsRun(digest, events + [e], run + [Step(digest, run[|events|], e)])
  {
    var events', run' := events + [e], run + [Step(digest, run[|events|], e)];
    forall i | 0 <= i < |events'|
      ensures Enabled(run'[i], events'[i]) && run'[i + 1] == Step(digest, run'[i], events'[i])
    {
      assert i < |events| ==> events'[i] == events[i] && run'[i] == run[i] && run'[i + 1] == run[i + 1];
    }
  }

  /** An attestation with a host key, recorded. */
  lemma AttestedRun(digest: Jws -> Bytes, subject: string, record: Record) returns (run: seq<State>)
    requires record.params.policyId == Rim.HOST_KEY_POLICY_ID
    ensures IsRun(digest, [AttestHostKey(1, subject, record), StoreRecord(1, true)], run)
    ensures run[2].store == map[subject := record] && 2 !in run[2].calls
    ensures run[2].issued == map[record.jws := Svid(subject, Rim.HOST_KEY_POLICY_ID, FromHostKey, 0)]
  {
    var a, b := AttestHostKey(1, subject, record), StoreRecord(1, true);
    RunSnoc(digest, [], [START], a);
    var s1 := Step(digest, START, a);
    assert [START] + [s1] == [START, s1] && [] + [a] == [a];
    RunSnoc(digest, [a], [START, s1], b);
    run := [START, s1] + [Step(digest, s1, b)];
    assert [a] + [b] == [a, b];
  }

  /** Its renewal, up to the new SVID minted. */
  lemma MintedRun(digest: Jws -> Bytes, subject: string, record: Record, renewed: Jws, events: seq<Event>,
                  run: seq<State>)
    returns (run': seq<State>)
    requires IsRun(digest, events, run) && 2 !in run[|events|].calls && run[|events|].store == map[subject := record]
    requires run[|events|].issued == map[record.jws := Svid(subject, Rim.HOST_KEY_POLICY_ID, FromHostKey, 0)]
    requires renewed != record.jws && record.params.policyId == Rim.HOST_KEY_POLICY_ID
    ensures IsRun(digest, events + [Present(2, record.jws)] + [LookUp(2, true, true)] + [Mint(2, renewed)], run')
    ensures var s := run'[|events| + 3];
            && 2 in s.calls && s.calls[2] == Minted(record.jws, record, renewed) && s.store == map[subject := record]
            && s.issued == map[record.jws := Svid(subject, Rim.HOST_KEY_POLICY_ID, FromHostKey, 0),
                               renewed := Svid(subject, Rim.HOST_KEY_POLICY_ID, FromRotation(record.jws), 1)]
  {
    var s := run[|events|];
    var s3 := Step(digest, s, Present(2, record.jws));
    RunSnoc(digest, events, run, Present(2, record.jws));
    var s4 := Step(digest, s3, LookUp(2, true, true));
    RunSnoc(digest, events + [Present(2, record.jws)], run + [s3], LookUp(2, true, true));
    var s5 := Step(digest, s4, Mint(2, renewed));
    RunSnoc(digest, events + [Present(2, record.jws)] + [LookUp(2, true, true)], run + [s3] + [s4], Mint(2, renewed));
    run' := run + [s3] + [s4] + [s5];
  }

  /** And its swap. */
  lemma SwappedRun(digest: Jws -> Bytes, subject: string, record: Record, renewed: Jws, events: seq<Event>,
                   run: seq<State>)
    returns (run': seq<State>)
    requires IsRun(digest, events, run)
    requires var s := run[|events|];
             && 2 in s.calls && s.calls[2] == Minted(record.jws, record, renewed) && s.store == map[subject := record]
             && record.jws in s.issued && s.issued[record.jws].subject == subject
    ensures IsRun(digest, events + [Fetch(2, true)] + [SwapBundle(2, Answered)], run')
    ensures var s := run'[|events| + 2];
            && 2 in s.calls && s.calls[2] == Renewed(renewed) && s.issued == run[|events|].issued
            && s.store == map[subject := record.(jws := renewed)]
  {
    var s6 := Step(digest, run[|events|], Fetch(2, true));
    RunSnoc(digest, events, run, Fetch(2, true));
    assert s6.calls[2] == Fetched(record.jws, record, renewed, record);
    RunSnoc(digest, events + [Fetch(2, true)], run + [s6], SwapBundle(2, Answered));
    run' := run + [s6] + [Step(digest, s6, SwapBundle(2, Answered))];
  }

  /** A run that attests with a host key, records, and renews: it ends with the new SVID
      sent and stored, all else of the record as attested. */
  lemma RenewalRun(digest: Jws -> Bytes, subject: string, record: Record, renewed: Jws)
    returns (events: seq<Event>, run: seq<State>)
    requires record.params.policyId == Rim.HOST_KEY_POLICY_ID && renewed != record.jws
    ensures events == [AttestHostKey(1, subject, record), StoreRecord(1, true), Present(2, record.jws),
                       LookUp(2, true, true), Mint(2, renewed), Fetch(2, true), SwapBundle(2, Answered)]
    ensures IsRun(digest, events, run) && 2 in run[7].calls && run[7].calls[2] == Renewed(renewed)
    ensures run[7].store == map[subject := record.(jws := renewed)]
    ensures renewed in run[7].issued && run[7].issued[renewed].origin == FromRotation(record.jws)
  {
    var first := [AttestHostKey(1, subject, record), StoreRecord(1, true)];
    var attested := AttestedRun(digest, subject, record);
    var minted := MintedRun(digest, subject, record, renewed, first, attested);
    var middle := first + [Present(2, record.jws)] + [LookUp(2, true, true)] + [Mint(2, renewed)];
    run := SwappedRun(digest, subject, record, renewed, middle, minted);
    events := middle + [Fetch(2, true)] + [SwapBundle(2, Answered)];
  }
}
