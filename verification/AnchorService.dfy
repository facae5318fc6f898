/** The queue in service is a run of its operations, so what holds of runs holds of
    services: a drain, cut or whole, is a sequence of marks and quarantines. */
module AnchorService {
  import opened Prelude
  import opened MachineInts
  import opened AnchorFiles
  import opened AnchorDrain
  import opened AnchorListing
  import opened AnchorStuck

  lemma {:induction false} RunConcat(env: Env, files: Files, a: seq<Op>, b: seq<Op>)
    ensures Run(env, files, a + b) == Run(env, Run(env, files, a), b)
    decreases |a|
  {
    if a == [] {
      assert a + b == b;
    } else {
      assert (a + b)[1..] == a[1..] + b;
      RunConcat(env, Step(env, files, a[0]), a[1..], b);
    }
  }

  lemma RunOne(env: Env, files: Files, op: Op)
    ensures Run(env, files, [op]) == Step(env, files, op)
  {
    assert [op][1..] == [];
  }

  function MoveOp(n: nat, answer: Answer, faults: Faults, budget: nat): Op
    requires !answer.Transient?
  {
    if answer.Accepted? then Mark(n, answer.receipt, faults, budget) else Quarantine(n, answer.reason, faults, budget)
  }

  lemma {:induction false} DrainIsOps(env: Env, files: Files, entries: seq<PendingEntry>, i: nat,
                                      submit: Head -> Answer,
                                      faults: Faults, moves: nat, budget: nat) returns (ops: seq<Op>)
    requires i <= |entries|
    ensures Run(env, files, ops) == DrainCut(env, files, entries, i, submit, faults, moves, budget)
    decreases |entries| - i
  {
    ops := [];
    if i < |entries| && !submit(entries[i].sth).Transient? {
      var n, answer := entries[i].treeSize, submit(entries[i].sth);
      var op := MoveOp(n, answer, faults, if moves == 0 then budget else ALIVE);
      ops := [op];
      RunOne(env, files, op);
      if moves > 0 && Move(env, files, n, answer, faults).1.Ok? {
        var files' := Move(env, files, n, answer, faults).0;
        var more := DrainIsOps(env, files', entries, i + 1, submit, faults, moves - 1, budget);
        RunConcat(env, files, [op], more);
        ops := [op] + more;
      }
    }
  }

  lemma ActIsOps(env: Env, files: Files, act: Act) returns (ops: seq<Op>)
    requires Enabled(files, act)
    ensures Run(env, files, ops) == Acted(env, files, act)
  {
    match act
    case Put(head, now, faults, budget) =>
      ops := [Enqueue(head, now, faults, budget)];
      RunOne(env, files, ops[0]);
    case Drain(sizes, submit, faults, moves, budget) =>
      ops := [];
      if ReadAll(env, files, sizes).Ok? {
        ops := DrainIsOps(env, files, ReadAll(env, files, sizes).value, 0, submit, faults, moves, budget);
      }
  }

  /** Any stretch of a service is a run of operations. */
  lemma {:induction false} StretchIsRun(env: Env, run: seq<Files>, acts: seq<Act>, i: nat, j: nat)
    returns (ops: seq<Op>)
    requires IsService(env, run, acts) && i <= j < |run|
    ensures run[j] == Run(env, run[i], ops)
    decreases j - i
  {
    if i == j {
      ops := [];
    } else {
      var first := ActIsOps(env, run[i], acts[i]);
      var more := StretchIsRun(env, run, acts, i + 1, j);
      RunConcat(env, run[i], first, more);
      ops := first + more;
    }
  }

  /** So every state of a service from the empty queue is one the results on runs speak of. */
  lemma ServiceIsRun(env: Env, run: seq<Files>, acts: seq<Act>, j: nat) returns (ops: seq<Op>)
    requires IsService(env, run, acts) && j < |run| && run[0] == map[]
    ensures run[j] == After(env, ops).files
  {
    ops := StretchIsRun(env, run, acts, 0, j);
    AfterIsRun(env, ops);
  }

  /** In service, with drains and enqueues dying anywhere, a head whose enqueue answered
      true is held for good. */
  lemma NoHeadIsLostInService(env: Env, run: seq<Files>, acts: seq<Act>, i: nat, j: nat)
    requires IsService(env, run, acts) && i < j < |run| && acts[i].Put?
    requires Enqueued(env, run[i], acts[i].head, acts[i].now, acts[i].faults, acts[i].budget).1 == Ok(true)
    ensures env.sizeOf(acts[i].head).Some?
    ensures Held(run[j], env.sizeOf(acts[i].head).value, env.encHead(acts[i].head))
  {
    var later := StretchIsRun(env, run, acts, i + 1, j);
    NoHeadIsLost(env, run[i], acts[i].head, acts[i].now, acts[i].faults, acts[i].budget, later);
    EnqueueKeeps(env, run[i], acts[i].head, acts[i].now, acts[i].faults, acts[i].budget);
  }

  /** A whole pass without faults, at any point of a service whose queue can be listed,
      takes everything before the first transient failure out of pending exactly when
      none of it is wedged for its answer. */
  lemma WholePassInService(env: Env, run: seq<Files>, acts: seq<Act>, k: nat)
    requires IsService(env, run, acts) && run[0] == map[] && k < |acts| && acts[k].Drain?
    requires Faultless(acts[k].faults) && ReadAll(env, run[k], acts[k].sizes).Ok? && acts[k].moves >= |acts[k].sizes|
    ensures var sizes, submit, entries := acts[k].sizes, acts[k].submit, ReadAll(env, run[k], acts[k].sizes).value;
            var stop := Stop(entries, 0, submit);
            && (Lists(run[k + 1], sizes[stop..]) <==>
                forall j | 0 <= j < stop :: !Wedged(run[k], sizes[j], submit(entries[j].sth).Accepted?))
            && (Lists(run[k + 1], sizes[stop..]) ==> ReadAll(env, run[k + 1], sizes[stop..]) == Ok(entries[stop..]))
  {
    var act := acts[k];
    var ops := ServiceIsRun(env, run, acts, k);
    var entries := ReadAll(env, run[k], act.sizes).value;
    var stop := Stop(entries, 0, act.submit);
    DrainUncut(env, run[k], entries, 0, act.submit, act.faults, act.moves, act.budget, NOTHING);
    DrainSucceedsUnlessWedged(env, ops, act.sizes, act.submit, act.faults);
    if DrainFrom(env, run[k], entries, 0, act.submit, act.faults, NOTHING).1.Ok? {
      DrainLeavesSuffix(env, run[k], act.sizes, act.submit, act.faults);
    } else {
      var j :| 0 <= j < stop && Wedged(run[k], act.sizes[j], act.submit(entries[j].sth).Accepted?);
      WedgeInTheWay(env, run[k], act, j);
      assert act.sizes[j] !in act.sizes[stop..];
    }
  }

  lemma WedgeInTheWay(env: Env, files: Files, act: Act, j: nat)
    requires act.Drain? && Enabled(files, act) && ReadAll(env, files, act.sizes).Ok? && j < |act.sizes|
    requires var answer := act.submit(ReadAll(env, files, act.sizes).value[j].sth);
             !answer.Transient? && Wedged(files, act.sizes[j], answer.Accepted?)
    ensures PendingSth(act.sizes[j]) in Acted(env, files, act)
  {
    var entries := ReadAll(env, files, act.sizes).value;
    EntriesMatch(env, files, act.sizes);
    DrainStopsAtWedge(env, files, entries, 0, act.submit, act.faults, act.moves, act.budget, j,
                      act.submit(entries[j].sth).Accepted?, PendingSth(act.sizes[j]));
  }
}
