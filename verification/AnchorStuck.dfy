/** Where the anchor queue gets stuck for good: an entry that cannot be read stops every
    listing, and an entry whose target file is already there stops every drain at it.
    Both survive any later enqueues and drains, crashes included. */
module AnchorStuck {
  import opened Prelude
  import opened Disk
  import opened MachineInts
  import opened Decimal
  import opened AnchorFiles
  import opened AnchorDrain
  import opened AnchorListing

  // ------------------------------------------------------------- the queue in service

  function Carried(env: Env, files: Files, n: nat, answer: Answer, faults: Faults, budget: nat): Files
    requires !answer.Transient?
  {
    if answer.Accepted? then Marked(env, files, n, answer.receipt, faults, budget).0
    else Quarantined(env, files, n, answer.reason, faults, budget).0
  }

  /** A drain that dies in the move after `moves` whole ones, `budget` file operations
      into it. */
  function DrainCut(env: Env, files: Files, entries: seq<PendingEntry>, i: nat, submit: Head -> Answer, faults: Faults,
                    moves: nat, budget: nat): Files
    requires i <= |entries|
    decreases |entries| - i
  {
    if i == |entries| then files
    else
      var answer := submit(entries[i].sth);
      if answer.Transient? then files
      else if moves == 0 then Carried(env, files, entries[i].treeSize, answer, faults, budget)
      else
        var (files', r) := Move(env, files, entries[i].treeSize, answer, faults);
        if r.Err? then files' else DrainCut(env, files', entries, i + 1, submit, faults, moves - 1, budget)
  }

  /** One that is not cut is the drain itself. */
  lemma {:induction false} DrainUncut(env: Env, files: Files, entries: seq<PendingEntry>, i: nat,
                                      submit: Head -> Answer, faults: Faults,
                                      moves: nat, budget: nat, o: Outcome)
    requires i <= |entries| <= i + moves
    ensures DrainCut(env, files, entries, i, submit, faults, moves, budget) ==
            DrainFrom(env, files, entries, i, submit, faults, o).0
    decreases |entries| - i
  {
    if i < |entries| && !submit(entries[i].sth).Transient? {
      var answer := submit(entries[i].sth);
      var (files', r) := Move(env, files, entries[i].treeSize, answer, faults);
      if r.Ok? {
        DrainUncut(env, files', entries, i + 1, submit, faults, moves - 1, budget, Tally(o, answer));
      }
    }
  }

  datatype Act =
    | Put(head: Head, now: I64, faults: Faults, budget: nat)
    | Drain(sizes: seq<nat>, submit: Head -> Answer, faults: Faults, moves: nat, budget: nat)

  /** A drain lists the queue as it is. */
  ghost predicate Enabled(files: Files, act: Act) {
    act.Drain? ==> Lists(files, act.sizes)
  }

  function Acted(env: Env, files: Files, act: Act): Files
    requires Enabled(files, act)
  {
    match act
    case Put(head, now, faults, budget) => Enqueued(env, files, head, now, faults, budget).0
    case Drain(sizes, submit, faults, moves, budget) =>
      match ReadAll(env, files, sizes)
      case Err(_) => files
      case Ok(entries) => DrainCut(env, files, entries, 0, submit, faults, moves, budget)
  }

  ghost predicate IsService(env: Env, run: seq<Files>, acts: seq<Act>) {
    && |run| == |acts| + 1
    && forall i | 0 <= i < |acts| :: Enabled(run[i], acts[i]) && run[i + 1] == Acted(env, run[i], acts[i])
  }

  /** An enqueue changes nothing of a size already pending, and nothing of other sizes. */
  lemma PutTouches(env: Env, files: Files, head: Head, now: I64, faults: Faults, budget: nat, f: File)
    requires PendingSth(f.n) in files || env.sizeOf(head) != Some(f.n)
    ensures SameFile(files, Enqueued(env, files, head, now, faults, budget).0, f)
  {
    if env.sizeOf(head).Some? && env.sizeOf(head).value != f.n {
      ExecTouches(files, EnqueueOps(env, env.sizeOf(head).value, head, now), faults, budget, f);
    }
  }

  // --------------------------------------------------------- an entry that cannot be read

  ghost predicate Unreadable(env: Env, files: Files, n: nat) {
    PendingSth(n) in files && ReadEntry(env, files, n).Err?
  }

  lemma UnreadableBlocksListing(env: Env, files: Files, n: nat, sizes: seq<nat>)
    requires Unreadable(env, files, n) && Lists(files, sizes)
    ensures ReadAll(env, files, sizes).Err?
  {
    var i :| 0 <= i < |sizes| && sizes[i] == n;
    assert ReadEntry(env, files, sizes[i]).Err?;
  }

  lemma UnreadableStays(env: Env, files: Files, act: Act, n: nat)
    requires Unreadable(env, files, n) && Enabled(files, act)
    ensures Unreadable(env, Acted(env, files, act), n) && Keeps(files, Acted(env, files, act))
  {
    match act
    case Put(head, now, faults, budget) =>
      EnqueueKeeps(env, files, head, now, faults, budget);
      PutTouches(env, files, head, now, faults, budget, PendingSth(n));
      PutTouches(env, files, head, now, faults, budget, PendingEnq(n));
    case Drain(sizes, _, _, _, _) => UnreadableBlocksListing(env, files, n, sizes);
  }

  /** An entry that cannot be read stays, and nothing that is pending ever leaves again: every
      listing fails, so every drain does, whatever is enqueued in between. */
  lemma {:induction false} UnreadableForever(env: Env, run: seq<Files>, acts: seq<Act>, i: nat, j: nat, n: nat)
    requires IsService(env, run, acts) && i <= j < |run| && Unreadable(env, run[i], n)
    ensures Unreadable(env, run[j], n) && Keeps(run[i], run[j])
    ensures forall sizes | Lists(run[j], sizes) :: ReadAll(env, run[j], sizes).Err?
    decreases j - i
  {
    if i < j {
      UnreadableStays(env, run[i], acts[i], n);
      UnreadableForever(env, run, acts, i + 1, j, n);
    } else {
      forall sizes | Lists(run[j], sizes)
        ensures ReadAll(env, run[j], sizes).Err?
      {
        UnreadableBlocksListing(env, run[j], n, sizes);
      }
    }
  }

  /** The bytes of the time file after an enqueue that began its head file: those of a
      file already there, else what it got to write. */
  function TimeAfter(q: Queue, now: I64, faults: Faults, budget: nat, n: nat): Option<Bytes> {
    if PendingEnq(n) in q.files then Some(q.files[PendingEnq(n)].bytes)
    else if faults.fate(PendingSth(n)).Done? && budget > 1 && !faults.fate(PendingEnq(n)).OpenFails?
    then Some(Landed(Text(now), faults.fate(PendingEnq(n))))
    else None
  }

  lemma EnqueueLeaves(env: Env, q: Queue, head: Head, now: I64, faults: Faults, budget: nat, n: nat)
    requires QueueCodecs(env) && env.sizeOf(head) == Some(n)
    requires PendingSth(n) !in q.files && ReceiptFile(n) !in q.files
    ensures var files := Enqueued(env, q.files, head, now, faults, budget).0;
            var time := TimeAfter(q, now, faults, budget, n);
            && (PendingSth(n) in files <==> budget > 0 && !faults.fate(PendingSth(n)).OpenFails?)
            && (PendingSth(n) in files ==>
                  && files[PendingSth(n)].bytes == Landed(env.encHead(head), faults.fate(PendingSth(n)))
                  && (PendingEnq(n) in files <==> time.Some?)
                  && (time.Some? ==> files[PendingEnq(n)].bytes == time.value))
  {
    if budget > 0 {
      EnqueueIs(env, q.files, head, now, faults, budget, n);
    }
  }

  /** After any run, an enqueue of a size that is neither pending nor receipted leaves such
      an entry exactly when it began its head file, and not both the head is whole and
      there is then a time file with a digit. */
  lemma EnqueueBreaksIff(env: Env, q: Queue, head: Head, now: I64, faults: Faults, budget: nat, n: nat)
    requires QueueCodecs(env) && Inv(env, q) && env.sizeOf(head) == Some(n)
    requires PendingSth(n) !in q.files && ReceiptFile(n) !in q.files
    ensures var headBytes := Landed(env.encHead(head), faults.fate(PendingSth(n)));
            var time := TimeAfter(q, now, faults, budget, n);
            Unreadable(env, Enqueued(env, q.files, head, now, faults, budget).0, n) <==>
            && budget > 0 && !faults.fate(PendingSth(n)).OpenFails?
            && !(|headBytes| == |env.encHead(head)| && time.Some? && time.value !in {[], [MINUS]})
  {
    EnqueueLeaves(env, q, head, now, faults, budget, n);
    if budget > 0 {
      HeadDecodes(env, head, Landed(env.encHead(head), faults.fate(PendingSth(n))));
      var x := CutText(now, Landed(Text(now), faults.fate(PendingEnq(n))));
      if PendingEnq(n) in q.files {
        var y := CutText(q.timed[n], q.files[PendingEnq(n)].bytes);
      }
    }
  }

  // ------------------------------------------------- an entry whose target is in the way

  /** Entry n is pending and its receipt (or its copy in dead) is already there. */
  predicate Wedged(files: Files, n: nat, accepted: bool) {
    PendingSth(n) in files && (if accepted then ReceiptFile(n) else DeadSth(n)) in files
  }

  /** The log does not answer in the one way that would still move it. */
  predicate Unhelpful(answer: Answer, accepted: bool) {
    answer.Transient? || (if accepted then answer.Accepted? else answer.Permanent?)
  }

  lemma WedgedMoves(env: Env, files: Files, n: nat, answer: Answer, faults: Faults, budget: nat, accepted: bool)
    requires Wedged(files, n, accepted) && Unhelpful(answer, accepted) && !answer.Transient?
    ensures Carried(env, files, n, answer, faults, budget) == files
    ensures Move(env, files, n, answer, faults).0 == files && Move(env, files, n, answer, faults).1.Err?
  {
    var ops := if accepted then MarkOps(env, n, answer.receipt) else QuarantineOps(env, files, n, answer.reason);
    assert ops == [ops[0]] + ops[1..];
    if budget > 0 {
      ExecCons(files, ops[0], ops[1..], faults, budget);
    }
    ExecCons(files, ops[0], ops[1..], faults, ALIVE);
  }

  lemma CarryTouches(env: Env, files: Files, n: nat, answer: Answer, faults: Faults, budget: nat, f: File)
    requires !answer.Transient? && f.n != n
    ensures SameFile(files, Carried(env, files, n, answer, faults, budget), f)
  {
    if answer.Accepted? {
      ExecTouches(files, MarkOps(env, n, answer.receipt), faults, budget, f);
    } else if PendingSth(n) in files {
      ExecTouches(files, QuarantineOps(env, files, n, answer.reason), faults, budget, f);
    }
  }

  /** A drain does not get past a wedged entry: files of its size and beyond stay. */
  lemma {:induction false} DrainStopsAtWedge(env: Env, files: Files, entries: seq<PendingEntry>, i: nat,
                                             submit: Head -> Answer, faults: Faults,
                                             moves: nat, budget: nat, j: nat, accepted: bool, f: File)
    requires i <= j < |entries| && Ascending(entries) && f.n >= entries[j].treeSize
    requires Wedged(files, entries[j].treeSize, accepted) && Unhelpful(submit(entries[j].sth), accepted)
    ensures SameFile(files, DrainCut(env, files, entries, i, submit, faults, moves, budget), f)
    decreases |entries| - i
  {
    var n, answer := entries[i].treeSize, submit(entries[i].sth);
    if !answer.Transient? {
      if i == j {
        WedgedMoves(env, files, n, answer, faults, budget, accepted);
      } else {
        assert n < entries[j].treeSize;
        CarryTouches(env, files, n, answer, faults, budget, f);
        CarryTouches(env, files, n, answer, faults, ALIVE, f);
        var (files', r) := Move(env, files, n, answer, faults);
        if moves > 0 && r.Ok? {
          var m := entries[j].treeSize;
          CarryTouches(env, files, n, answer, faults, ALIVE, PendingSth(m));
          CarryTouches(env, files, n, answer, faults, ALIVE, if accepted then ReceiptFile(m) else DeadSth(m));
          DrainStopsAtWedge(env, files', entries, i + 1, submit, faults, moves - 1, budget, j, accepted, f);
        }
      }
    }
  }

  /** The drains of these acts never meet the one helpful answer for the head of n. */
  ghost predicate NeverHelped(env: Env, head: Bytes, act: Act, accepted: bool) {
    act.Drain? && env.decHead(head).Some? ==> Unhelpful(act.submit(env.decHead(head).value), accepted)
  }

  lemma WedgedStays(env: Env, files: Files, act: Act, n: nat, accepted: bool, f: File)
    requires Wedged(files, n, accepted) && Enabled(files, act) &&
             NeverHelped(env, files[PendingSth(n)].bytes, act, accepted)
    requires f in files && f.n >= n
    ensures f in Acted(env, files, act) && Acted(env, files, act)[f] == files[f]
  {
    match act
    case Put(head, now, faults, budget) => EnqueueKeeps(env, files, head, now, faults, budget);
    case Drain(sizes, submit, faults, moves, budget) =>
      if ReadAll(env, files, sizes).Ok? {
        var entries := ReadAll(env, files, sizes).value;
        EntriesMatch(env, files, sizes);
        var j :| 0 <= j < |sizes| && sizes[j] == n;
        assert ReadEntry(env, files, sizes[j]) == Ok(entries[j]);
        DrainStopsAtWedge(env, files, entries, 0, submit, faults, moves, budget, j, accepted, f);
      }
  }

  /** A wedged entry stays wedged, and no head of its size or beyond ever leaves pending,
      unless the log comes to give its head the one other final answer. */
  lemma {:induction false} WedgedForever(env: Env, run: seq<Files>, acts: seq<Act>, i: nat, j: nat, n: nat,
                                         accepted: bool)
    requires IsService(env, run, acts) && i <= j < |run| && Wedged(run[i], n, accepted)
    requires forall k | i <= k < j :: NeverHelped(env, run[i][PendingSth(n)].bytes, acts[k], accepted)
    ensures Wedged(run[j], n, accepted)
    ensures forall f | f in run[i] && f.n >= n :: f in run[j] && run[j][f] == run[i][f]
    decreases j - i
  {
    if i < j {
      forall f | f in run[i] && f.n >= n
        ensures f in run[i + 1] && run[i + 1][f] == run[i][f]
      {
        WedgedStays(env, run[i], acts[i], n, accepted, f);
      }
      WedgedForever(env, run, acts, i + 1, j, n, accepted);
    }
  }

  /** Every drain that reaches a wedged entry and gets that answer fails. */
  lemma WedgedDrainFails(env: Env, files: Files, sizes: seq<nat>, j: nat, submit: Head -> Answer, faults: Faults,
                         accepted: bool)
    requires Lists(files, sizes) && ReadAll(env, files, sizes).Ok? && j < |sizes| && Wedged(files, sizes[j], accepted)
    requires j < Stop(ReadAll(env, files, sizes).value, 0, submit)
    requires Unhelpful(submit(ReadAll(env, files, sizes).value[j].sth), accepted)
    ensures DrainFrom(env, files, ReadAll(env, files, sizes).value, 0, submit, faults, NOTHING).1.Err?
  {
    var entries := ReadAll(env, files, sizes).value;
    EntriesMatch(env, files, sizes);
    DrainSucceedsIff(env, files, entries, 0, submit, faults, NOTHING);
    assert !CanMove(files, faults, entries[j].treeSize, submit(entries[j].sth));
  }

  // ------------------------------------------------------------- where wedges come from

  /** Marking leaves a wedge exactly when the receipt file was begun and the pending head
      not removed: cut short, torn, or with a removal that failed. */
  lemma MarkWedgesIff(env: Env, files: Files, n: nat, receipt: Receipt, faults: Faults, budget: nat)
    requires PendingSth(n) in files && ReceiptFile(n) !in files
    ensures Wedged(Marked(env, files, n, receipt, faults, budget).0, n, true) <==>
            && budget > 0 && !faults.fate(ReceiptFile(n)).OpenFails?
            && !(faults.fate(ReceiptFile(n)).Done? && budget > 1 && faults.removable(PendingSth(n)))
  {
    var a, rest := Create(ReceiptFile(n), env.encReceipt(receipt)), [Remove(PendingSth(n)), Remove(PendingEnq(n))];
    assert MarkOps(env, n, receipt) == [a] + rest;
    if budget > 0 {
      ExecCons(files, a, rest, faults, budget);
      RemovesHead(Created(files, a.file, a.bytes, faults.fate(a.file)).0, n, faults, budget - 1);
    }
  }

  /** The same for quarantine, whose second file can be in the way as well. */
  lemma QuarantineWedgesIff(env: Env, files: Files, n: nat, reason: string, faults: Faults, budget: nat)
    requires PendingSth(n) in files && DeadSth(n) !in files
    ensures Wedged(Quarantined(env, files, n, reason, faults, budget).0, n, false) <==>
            && budget > 0 && !faults.fate(DeadSth(n)).OpenFails?
            && !(&& faults.fate(DeadSth(n)).Done? && budget > 1 && DeadErr(n) !in files && faults.fate(DeadErr(n)).Done?
                 && budget > 2 && faults.removable(PendingSth(n)))
  {
    var rest := [Remove(PendingSth(n)), Remove(PendingEnq(n))];
    var a, b := Create(DeadSth(n), files[PendingSth(n)].bytes), Create(DeadErr(n), env.encText(reason));
    assert QuarantineOps(env, files, n, reason) == [a] + ([b] + rest);
    if budget > 0 {
      ExecCons(files, a, [b] + rest, faults, budget);
      var (files1, r1) := Created(files, a.file, a.bytes, faults.fate(a.file));
      if r1.Ok? && budget > 1 {
        ExecCons(files1, b, rest, faults, budget - 1);
        RemovesHead(Created(files1, b.file, b.bytes, faults.fate(b.file)).0, n, faults, budget - 2);
      }
    }
  }

  lemma RemovesHead(files: Files, n: nat, faults: Faults, budget: nat)
    requires PendingSth(n) in files
    ensures var after := Exec(files, [Remove(PendingSth(n)), Remove(PendingEnq(n))], faults, budget).0;
            && (PendingSth(n) in after <==> !(budget > 0 && faults.removable(PendingSth(n))))
            && forall f: File | f.n == n && (f.ReceiptFile? || f.DeadSth?) :: f in after <==> f in files
  {
    var x, y := Remove(PendingSth(n)), Remove(PendingEnq(n));
    assert [x, y] == [x] + ([y] + []);
    if budget > 0 {
      ExecCons(files, x, [y] + [], faults, budget);
      if budget > 1 {
        ExecCons(Removed(files, x.file, faults.removable(x.file)), y, [], faults, budget - 1);
      }
    }
  }

  /** No fault and no crash is needed: a head enqueued again after its quarantine is taken,
      for `enqueue` does not look in dead, and its next quarantine fails. */
  lemma RequeuedIsWedged(env: Env, head: Head, n: nat, t: I64, t': I64, reason: string, reason': string)
    requires env.sizeOf(head) == Some(n)
    ensures var before := After(env, [Enqueue(head, t, CALM, ALIVE), Quarantine(n, reason, CALM, ALIVE)]).files;
            var (files, r) := Enqueued(env, before, head, t', CALM, ALIVE);
            && r == Ok(true) && Wedged(files, n, false)
            && Quarantined(env, files, n, reason', CALM, ALIVE) == (files, Err(AlreadyExists(DeadSth(n))))
  {
    QuarantinedOnce(env, head, n, t, reason, CALM);
    var before := After(env, [Enqueue(head, t, CALM, ALIVE), Quarantine(n, reason, CALM, ALIVE)]).files;
    EnqueueIs(env, before, head, t', CALM, ALIVE, n);
    QuarantinedIs(env, Enqueued(env, before, head, t', CALM, ALIVE).0, n, reason', CALM);
  }

  // -------------------------------------------------------------- when a drain succeeds

  /** Dead files come in order: the reason only after the head. */
  ghost predicate DeadInOrder(files: Files) {
    forall n: nat | DeadErr(n) in files :: DeadSth(n) in files
  }

  lemma StepDeadInOrder(env: Env, files: Files, op: Op, n: nat)
    requires DeadInOrder(files) && DeadErr(n) in Step(env, files, op)
    ensures DeadSth(n) in Step(env, files, op)
  {
    match op
    case Enqueue(head, now, faults, budget) =>
      if env.sizeOf(head).Some? {
        var ops := EnqueueOps(env, env.sizeOf(head).value, head, now);
        ExecTouches(files, ops, faults, budget, DeadErr(n));
        ExecTouches(files, ops, faults, budget, DeadSth(n));
      }
    case Mark(m, receipt, faults, budget) =>
      ExecTouches(files, MarkOps(env, m, receipt), faults, budget, DeadErr(n));
      ExecTouches(files, MarkOps(env, m, receipt), faults, budget, DeadSth(n));
    case Quarantine(m, reason, faults, budget) =>
      if PendingSth(m) in files {
        if m == n {
          QuarantineDeadInOrder(env, files, n, reason, faults, budget);
        } else {
          ExecTouches(files, QuarantineOps(env, files, m, reason), faults, budget, DeadErr(n));
          ExecTouches(files, QuarantineOps(env, files, m, reason), faults, budget, DeadSth(n));
        }
      }
  }

  lemma QuarantineDeadInOrder(env: Env, files: Files, n: nat, reason: string, faults: Faults, budget: nat)
    requires PendingSth(n) in files && DeadInOrder(files)
    ensures var after := Quarantined(env, files, n, reason, faults, budget).0;
            DeadErr(n) in after ==> DeadSth(n) in after
  {
    var rest := [Remove(PendingSth(n)), Remove(PendingEnq(n))];
    var a, b := Create(DeadSth(n), files[PendingSth(n)].bytes), Create(DeadErr(n), env.encText(reason));
    assert QuarantineOps(env, files, n, reason) == [a] + ([b] + rest);
    if budget > 0 {
      ExecCons(files, a, [b] + rest, faults, budget);
      var (files1, r1) := Created(files, a.file, a.bytes, faults.fate(a.file));
      if r1.Ok? && budget > 1 {
        ExecCons(files1, b, rest, faults, budget - 1);
        var files2 := Created(files1, b.file, b.bytes, faults.fate(b.file)).0;
        ExecTouches(files2, rest, faults, budget - 2, DeadSth(n));
      }
    }
  }

  lemma {:induction false} AfterDeadInOrder(env: Env, ops: seq<Op>)
    ensures DeadInOrder(After(env, ops).files)
  {
    if ops != [] {
      var q, op := After(env, ops[..|ops| - 1]), ops[|ops| - 1];
      AfterDeadInOrder(env, ops[..|ops| - 1]);
      forall n: nat | DeadErr(n) in Step(env, q.files, op)
        ensures DeadSth(n) in Step(env, q.files, op)
      {
        StepDeadInOrder(env, q.files, op, n);
      }
    }
  }

  ghost predicate Faultless(faults: Faults) {
    forall f :: faults.fate(f).Done? && faults.removable(f)
  }

  lemma MovableUnlessWedged(files: Files, faults: Faults, n: nat, answer: Answer)
    requires DeadInOrder(files) && Faultless(faults) && PendingSth(n) in files && !answer.Transient?
    ensures CanMove(files, faults, n, answer) <==> !Wedged(files, n, answer.Accepted?)
  {
  }

  /** After any run, a pass without faults over a queue that can be listed succeeds exactly
      when no entry before the first transient failure is wedged for its answer. */
  lemma DrainSucceedsUnlessWedged(env: Env, ops: seq<Op>, sizes: seq<nat>, submit: Head -> Answer, faults: Faults)
    requires var files := After(env, ops).files; Lists(files, sizes) && ReadAll(env, files, sizes).Ok?
    requires Faultless(faults)
    ensures var files := After(env, ops).files;
            var entries := ReadAll(env, files, sizes).value;
            DrainFrom(env, files, entries, 0, submit, faults, NOTHING).1.Ok? <==>
            forall j | 0 <= j < Stop(entries, 0, submit) :: !Wedged(files, sizes[j], submit(entries[j].sth).Accepted?)
  {
    var files := After(env, ops).files;
    var entries := ReadAll(env, files, sizes).value;
    AfterDeadInOrder(env, ops);
    EntriesMatch(env, files, sizes);
    DrainSucceedsIff(env, files, entries, 0, submit, faults, NOTHING);
    forall j | 0 <= j < Stop(entries, 0, submit)
      ensures CanMove(files, faults, entries[j].treeSize, submit(entries[j].sth)) <==>
              !Wedged(files, sizes[j], submit(entries[j].sth).Accepted?)
    {
      MovableUnlessWedged(files, faults, sizes[j], submit(entries[j].sth));
    }
  }

  // ------------------------------------------------------- runs without faults or crashes

  ghost predicate Calm(op: Op) {
    Faultless(op.faults) && op.budget == ALIVE
  }

  /** Both files of every entry are there and right, and no pending size is receipted. */
  ghost predicate CalmInv(env: Env, q: Queue) {
    && Inv(env, q)
    && (forall n: nat | PendingSth(n) in q.files :: EntryRight(env, q, n) && ReceiptFile(n) !in q.files)
    && (forall n: nat | PendingEnq(n) in q.files :: PendingSth(n) in q.files)
    && (forall n: nat | ReceiptFile(n) in q.files :: q.files[ReceiptFile(n)].complete)
  }

  lemma SameEntryRight(env: Env, q: Queue, t: Queue, m: nat)
    requires PendingSth(m) in q.files && m in q.born && EntryRight(env, q, m) && m in t.born && t.born[m] == q.born[m]
    requires SameFile(q.files, t.files, PendingSth(m)) && SameFile(q.files, t.files, PendingEnq(m))
    ensures EntryRight(env, t, m)
  {
  }

  /** The queue after a head of a new size has been taken in whole. */
  function TakenIn(env: Env, q: Queue, head: Head, now: I64, n: nat): Queue {
    var files := q.files[PendingSth(n) := Content(env.encHead(head), true)];
    Queue(files[PendingEnq(n) := Content(env.encTime(now), true)], q.born[n := Birth(head, now)], q.timed[n := now])
  }

  lemma TakenInIsCalm(env: Env, q: Queue, head: Head, now: I64, n: nat)
    requires QueueCodecs(env) && CalmInv(env, q) && PendingSth(n) !in q.files && ReceiptFile(n) !in q.files
    requires Inv(env, TakenIn(env, q, head, now, n))
    ensures CalmInv(env, TakenIn(env, q, head, now, n))
  {
    var t := TakenIn(env, q, head, now, n);
    forall m: nat | PendingSth(m) in t.files
      ensures EntryRight(env, t, m)
    {
      if m != n {
        SameEntryRight(env, q, t, m);
      }
    }
  }

  lemma CalmEnqueue(env: Env, q: Queue, op: Op)
    requires QueueCodecs(env) && CalmInv(env, q) && op.Enqueue? && Calm(op)
    ensures CalmInv(env, Next(env, q, op))
  {
    NextKeeps(env, q, op);
    if env.sizeOf(op.head).Some? {
      var n := env.sizeOf(op.head).value;
      if PendingSth(n) !in q.files && ReceiptFile(n) !in q.files {
        EnqueueIs(env, q.files, op.head, op.now, op.faults, ALIVE, n);
        assert Next(env, q, op) == TakenIn(env, q, op.head, op.now, n);
        TakenInIsCalm(env, q, op.head, op.now, n);
      }
    }
  }

  lemma CalmMove(env: Env, q: Queue, op: Op)
    requires CalmInv(env, q) && !op.Enqueue? && Calm(op)
    ensures CalmInv(env, Next(env, q, op))
  {
    NextKeeps(env, q, op);
    if op.Mark? {
      MarkedIs(env, q.files, op.n, op.receipt, op.faults);
    } else if PendingSth(op.n) in q.files {
      QuarantinedIs(env, q.files, op.n, op.reason, op.faults);
    }
    var t := Next(env, q, op);
    forall m: nat | PendingSth(m) in t.files
      ensures EntryRight(env, t, m)
    {
      SameEntryRight(env, q, t, m);
    }
  }

  lemma {:induction false} AfterCalm(env: Env, ops: seq<Op>)
    requires QueueCodecs(env) && forall op | op in ops :: Calm(op)
    ensures CalmInv(env, After(env, ops))
  {
    if ops != [] {
      var before, op := ops[..|ops| - 1], ops[|ops| - 1];
      AfterCalm(env, before);
      assert op in ops;
      if op.Enqueue? {
        CalmEnqueue(env, After(env, before), op);
      } else {
        CalmMove(env, After(env, before), op);
      }
    }
  }

  /** Without faults and crashes the queue can always be listed, as it was enqueued, and a
      pass fails exactly at a head that was quarantined before, enqueued again, and refused
      for good again. */
  lemma CalmQueueWorks(env: Env, ops: seq<Op>, sizes: seq<nat>, submit: Head -> Answer, faults: Faults)
    requires QueueCodecs(env) && (forall op | op in ops :: Calm(op)) && Faultless(faults)
    requires Lists(After(env, ops).files, sizes)
    ensures var q := After(env, ops);
            && Inv(env, q) && ReadAll(env, q.files, sizes) == Ok(Enqueues(q, sizes))
            && var entries := Enqueues(q, sizes);
               DrainFrom(env, q.files, entries, 0, submit, faults, NOTHING).1.Ok? <==>
               forall j | 0 <= j < Stop(entries, 0, submit) ::
                 submit(entries[j].sth).Permanent? ==> DeadSth(sizes[j]) !in q.files
  {
    var q := After(env, ops);
    AfterCalm(env, ops);
    ListingRightIff(env, ops, sizes);
    DrainSucceedsUnlessWedged(env, ops, sizes, submit, faults);
    forall j | 0 <= j < |sizes|
      ensures PendingSth(sizes[j]) in q.files && ReceiptFile(sizes[j]) !in q.files
    {
      assert sizes[j] in sizes;
    }
  }

  lemma {:induction false} BornByAnOp(env: Env, ops: seq<Op>, n: nat)
    requires n in After(env, ops).born
    ensures exists op | op in ops :: op.Enqueue? && op.head == After(env, ops).born[n].head
  {
    if ops != [] {
      var before, last := ops[..|ops| - 1], ops[|ops| - 1];
      assert last in ops && forall op | op in before :: op in ops;
      if n in After(env, before).born && After(env, before).born[n] == After(env, ops).born[n] {
        BornByAnOp(env, before, n);
      }
    }
  }

  /** Without faults and crashes, and with one head to a size, an enqueue that answers false
      leaves the head held. */
  lemma CalmFalseIsHeld(env: Env, ops: seq<Op>, head: Head, now: I64, faults: Faults, budget: nat)
    requires QueueCodecs(env) && (forall op | op in ops :: Calm(op))
    requires forall op | op in ops && op.Enqueue? && env.sizeOf(op.head) == env.sizeOf(head) :: op.head == head
    requires Enqueued(env, After(env, ops).files, head, now, faults, budget).1 == Ok(false)
    ensures env.sizeOf(head).Some? && Held(After(env, ops).files, env.sizeOf(head).value, env.encHead(head))
  {
    var q, n := After(env, ops), env.sizeOf(head).value;
    AfterCalm(env, ops);
    FalseMeansHeldIff(env, ops, head, now, faults, budget);
    if PendingSth(n) in q.files {
      assert EntryRight(env, q, n);
      BornByAnOp(env, ops, n);
    }
  }
}
