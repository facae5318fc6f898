/** When the anchor queue can be listed, and when the listing is right, over whole runs
    of operations each cut short anywhere. */
module AnchorListing {
  import opened Prelude
  import opened Disk
  import opened MachineInts
  import opened Decimal
  import opened AnchorFiles
  import opened AnchorDrain

  /** Heads decode to what was encoded and half a JSON object is not JSON; times are
      decimal text, read as such at least where that is all there is. */
  ghost predicate QueueCodecs(env: Env) {
    && (forall h :: env.decHead(env.encHead(h)) == Some(h))
    && (forall h, k: nat :: k < |env.encHead(h)| ==> env.decHead(env.encHead(h)[..k]) == None)
    && (forall t: I64 :: env.encTime(t) == Text(t))
    && (forall t: I64, b | b <= Text(t) :: env.decTime(b) == Parse(b))
  }

  // ------------------------------------------------------------------------ history

  datatype Birth = Birth(head: Head, now: I64)

  /** The files, and as history the enqueue that created each pending head file and the
      time with which each time file was created. */
  datatype Queue = Queue(files: Files, born: map<nat, Birth>, timed: map<nat, I64>)

  const EMPTY: Queue := Queue(map[], map[], map[])

  function Next(env: Env, q: Queue, op: Op): Queue {
    var files := Step(env, q.files, op);
    if op.Enqueue? && env.sizeOf(op.head).Some? then
      var n := env.sizeOf(op.head).value;
      Queue(files,
            if PendingSth(n) !in q.files && PendingSth(n) in files then q.born[n := Birth(op.head, op.now)] else q.born,
            if PendingEnq(n) !in q.files && PendingEnq(n) in files then q.timed[n := op.now] else q.timed)
    else q.(files := files)
  }

  function After(env: Env, ops: seq<Op>): Queue {
    if ops == [] then EMPTY else Next(env, After(env, ops[..|ops| - 1]), ops[|ops| - 1])
  }

  lemma AfterSnoc(env: Env, ops: seq<Op>, op: Op)
    ensures After(env, ops + [op]) == Next(env, After(env, ops), op)
  {
    assert (ops + [op])[..|ops|] == ops;
  }

  /** The files are those of a plain run. */
  lemma {:induction false} AfterIsRun(env: Env, ops: seq<Op>)
    ensures After(env, ops).files == Run(env, map[], ops)
  {
    if ops != [] {
      var n := |ops| - 1;
      AfterIsRun(env, ops[..n]);
      assert ops == ops[..n] + [ops[n]];
      RunSnoc(env, map[], ops[..n], ops[n]);
    }
  }

  lemma {:induction false} RunSnoc(env: Env, files: Files, ops: seq<Op>, op: Op)
    ensures Run(env, files, ops + [op]) == Step(env, Run(env, files, ops), op)
    decreases |ops|
  {
    if ops == [] {
      assert [op][1..] == [];
    } else {
      assert (ops + [op])[1..] == ops[1..] + [op];
      RunSnoc(env, Step(env, files, ops[0]), ops[1..], op);
    }
  }

  // ---------------------------------------------------------------------- invariant

  /** Pending files hold the first bytes of what their enqueue wrote. */
  ghost predicate Inv(env: Env, q: Queue) {
    && (forall n: nat | PendingSth(n) in q.files ::
          && n in q.born && env.sizeOf(q.born[n].head) == Some(n)
          && q.files[PendingSth(n)].bytes <= env.encHead(q.born[n].head))
    && (forall n: nat | PendingEnq(n) in q.files ::
          n in q.timed && q.files[PendingEnq(n)].bytes <= env.encTime(q.timed[n]))
  }

  /** A step writes pending files only by an enqueue of their size. */
  lemma StepPending(env: Env, files: Files, op: Op, f: File)
    requires (f.PendingSth? || f.PendingEnq?) && f in Step(env, files, op)
    ensures var after := Step(env, files, op);
            || (f in files && after[f] == files[f])
            || (&& f !in files && op.Enqueue? && env.sizeOf(op.head) == Some(f.n)
                && after[f].bytes <= if f.PendingSth? then env.encHead(op.head) else env.encTime(op.now))
  {
    match op
    case Enqueue(head, now, faults, budget) =>
      EnqueueKeeps(env, files, head, now, faults, budget);
      if env.sizeOf(head).Some? {
        ExecCreates(files, EnqueueOps(env, env.sizeOf(head).value, head, now), faults, budget, f);
      }
    case Mark(n, receipt, faults, budget) =>
      ExecCreates(files, MarkOps(env, n, receipt), faults, budget, f);
    case Quarantine(n, reason, faults, budget) =>
      if PendingSth(n) in files {
        ExecCreates(files, QuarantineOps(env, files, n, reason), faults, budget, f);
      }
  }

  lemma NextKeeps(env: Env, q: Queue, op: Op)
    requires Inv(env, q)
    ensures Inv(env, Next(env, q, op))
  {
    var t := Next(env, q, op);
    forall n: nat | PendingSth(n) in t.files
      ensures n in t.born && env.sizeOf(t.born[n].head) == Some(n) &&
              t.files[PendingSth(n)].bytes <= env.encHead(t.born[n].head)
    {
      StepPending(env, q.files, op, PendingSth(n));
    }
    forall n: nat | PendingEnq(n) in t.files
      ensures n in t.timed && t.files[PendingEnq(n)].bytes <= env.encTime(t.timed[n])
    {
      StepPending(env, q.files, op, PendingEnq(n));
    }
  }

  lemma {:induction false} AfterKeeps(env: Env, ops: seq<Op>)
    ensures Inv(env, After(env, ops))
  {
    if ops != [] {
      AfterKeeps(env, ops[..|ops| - 1]);
      NextKeeps(env, After(env, ops[..|ops| - 1]), ops[|ops| - 1]);
    }
  }

  // ------------------------------------------------------------------- the listing

  /** The head file of size n is not short. */
  ghost predicate HeadWhole(env: Env, q: Queue, n: nat)
    requires PendingSth(n) in q.files && n in q.born
  {
    |q.files[PendingSth(n)].bytes| == |env.encHead(q.born[n].head)|
  }

  /** The time file of size n is there and has at least one digit. */
  predicate HasDigit(q: Queue, n: nat) {
    PendingEnq(n) in q.files && q.files[PendingEnq(n)].bytes != [] && q.files[PendingEnq(n)].bytes != [MINUS]
  }

  lemma HeadDecodes(env: Env, head: Head, bytes: Bytes)
    requires QueueCodecs(env) && bytes <= env.encHead(head)
    ensures env.decHead(bytes) == if |bytes| == |env.encHead(head)| then Some(head) else None
  {
    assert bytes == env.encHead(head)[..|bytes|];
    if |bytes| == |env.encHead(head)| {
      assert bytes == env.encHead(head);
    }
  }

  /** One entry: readable exactly when its head is not short and its time has a digit;
      then the head is the one enqueued, and the time is that of the enqueue exactly
      when the time file holds its whole text. */
  lemma EntryReads(env: Env, q: Queue, n: nat)
    requires QueueCodecs(env) && Inv(env, q) && PendingSth(n) in q.files
    ensures var r := ReadEntry(env, q.files, n);
            && (r.Ok? <==> HeadWhole(env, q, n) && HasDigit(q, n))
            && (r.Ok? ==> r.value.treeSize == n && r.value.sth == q.born[n].head)
            && (r.Ok? ==> (r.value.enqueuedAt == q.born[n].now <==>
                q.files[PendingEnq(n)].bytes == Text(q.born[n].now)))
  {
    HeadDecodes(env, q.born[n].head, q.files[PendingSth(n)].bytes);
    if PendingEnq(n) in q.files {
      var x := CutText(q.timed[n], q.files[PendingEnq(n)].bytes);
      ParseText(q.born[n].now);
    }
  }

  /** After any run, the queue can be listed exactly when no pending head is short and
      every one has a time file with a digit. One that fails fails all. */
  lemma ListingSucceedsIff(env: Env, ops: seq<Op>, sizes: seq<nat>)
    requires QueueCodecs(env) && Lists(After(env, ops).files, sizes)
    ensures var q := After(env, ops);
            && Inv(env, q)
            && (ReadAll(env, q.files, sizes).Ok? <==>
                forall n: nat | PendingSth(n) in q.files :: HeadWhole(env, q, n) && HasDigit(q, n))
  {
    var q := After(env, ops);
    AfterKeeps(env, ops);
    forall n: nat | PendingSth(n) in q.files
      ensures ReadEntry(env, q.files, n).Ok? <==> HeadWhole(env, q, n) && HasDigit(q, n)
    {
      EntryReads(env, q, n);
    }
    if ReadAll(env, q.files, sizes).Ok? {
      forall n: nat | PendingSth(n) in q.files
        ensures ReadEntry(env, q.files, n).Ok?
      {
        var i :| 0 <= i < |sizes| && sizes[i] == n;
        assert ReadEntry(env, q.files, sizes[i]).Ok?;
      }
    }
  }

  /** The head file is not short and the time file holds the whole text of its own
      enqueue's time. */
  ghost predicate EntryRight(env: Env, q: Queue, n: nat)
    requires PendingSth(n) in q.files && n in q.born
  {
    HeadWhole(env, q, n) && PendingEnq(n) in q.files && q.files[PendingEnq(n)].bytes == Text(q.born[n].now)
  }

  lemma EntryRightReads(env: Env, q: Queue, n: nat)
    requires QueueCodecs(env) && Inv(env, q) && PendingSth(n) in q.files
    ensures ReadEntry(env, q.files, n) == Ok(PendingEntry(n, q.born[n].head, q.born[n].now)) <==> EntryRight(env, q, n)
  {
    EntryReads(env, q, n);
    ParseText(q.born[n].now);
  }

  /** Every entry as it was enqueued. */
  function Enqueues(q: Queue, sizes: seq<nat>): seq<PendingEntry>
    requires forall n | n in sizes :: n in q.born
  {
    seq(|sizes|, i requires 0 <= i < |sizes| => PendingEntry(sizes[i], q.born[sizes[i]].head, q.born[sizes[i]].now))
  }

  /** After any run, the listing is what was enqueued, times included, exactly when no
      pending head is short and every one has a time file that holds the whole text of
      its own enqueue's time. */
  lemma ListingRightIff(env: Env, ops: seq<Op>, sizes: seq<nat>)
    requires QueueCodecs(env) && Lists(After(env, ops).files, sizes)
    ensures var q := After(env, ops);
            && Inv(env, q)
            && (ReadAll(env, q.files, sizes) == Ok(Enqueues(q, sizes)) <==>
                forall n: nat | PendingSth(n) in q.files :: EntryRight(env, q, n))
  {
    var q := After(env, ops);
    AfterKeeps(env, ops);
    var all := Enqueues(q, sizes);
    forall i | 0 <= i < |sizes|
      ensures ReadEntry(env, q.files, sizes[i]) == Ok(all[i]) <==> EntryRight(env, q, sizes[i])
    {
      assert sizes[i] in sizes;
      EntryRightReads(env, q, sizes[i]);
    }
    if forall i | 0 <= i < |sizes| :: EntryRight(env, q, sizes[i]) {
      ReadAllIs(env, q.files, sizes, all);
    }
    forall n: nat | PendingSth(n) in q.files
      ensures exists i :: 0 <= i < |sizes| && sizes[i] == n
    {
      assert n in sizes;
    }
  }

  // -------------------------------------------------------- an enqueue that answers false

  /** After any run, an enqueue that answers false has left the head in safe hands exactly
      when the pending file is that very head and not short, or the size is receipted by a
      complete receipt, or the head is complete in dead. */
  lemma FalseMeansHeldIff(env: Env, ops: seq<Op>, head: Head, now: I64, faults: Faults, budget: nat)
    requires QueueCodecs(env) && Enqueued(env, After(env, ops).files, head, now, faults, budget).1 == Ok(false)
    ensures var q := After(env, ops);
            && env.sizeOf(head).Some? && Inv(env, q)
            && var n := env.sizeOf(head).value;
               Held(q.files, n, env.encHead(head)) <==>
                 || (PendingSth(n) in q.files && q.born[n].head == head && HeadWhole(env, q, n))
                 || (ReceiptFile(n) in q.files && q.files[ReceiptFile(n)].complete)
                 || (DeadSth(n) in q.files && q.files[DeadSth(n)] == Content(env.encHead(head), true))
  {
    var q, n := After(env, ops), env.sizeOf(head).value;
    AfterKeeps(env, ops);
    if PendingSth(n) in q.files {
      HeadDecodes(env, q.born[n].head, q.files[PendingSth(n)].bytes);
      assert env.decHead(env.encHead(head)) == Some(head);
    }
  }

  // ------------------------------------------------------------------- what does happen

  const CALM: Faults := Faults((f: File) => Done, (f: File) => true)

  /** An enqueue of a size that is neither pending nor receipted, written out. */
  lemma EnqueueIs(env: Env, files: Files, head: Head, now: I64, faults: Faults, budget: nat, n: nat)
    requires env.sizeOf(head) == Some(n) && PendingSth(n) !in files && ReceiptFile(n) !in files && budget > 0
    ensures var (files1, r1) := Created(files, PendingSth(n), env.encHead(head), faults.fate(PendingSth(n)));
            var (files2, r2) := Created(files1, PendingEnq(n), env.encTime(now), faults.fate(PendingEnq(n)));
            Enqueued(env, files, head, now, faults, budget) ==
            if r1.Err? then (files1, Err(r1.error))
            else if budget == 1 then (files1, Err(Io))
            else (files2, if r2.Ok? then Ok(true) else Err(r2.error))
  {
    var a, b := Create(PendingSth(n), env.encHead(head)), Create(PendingEnq(n), env.encTime(now));
    assert EnqueueOps(env, n, head, now) == [a] + ([b] + []);
    ExecCons(files, a, [b] + [], faults, budget);
    var files1 := Created(files, a.file, a.bytes, faults.fate(a.file)).0;
    if budget > 1 {
      ExecCons(files1, b, [], faults, budget - 1);
    }
  }

  /** A time cut after a digit: the enqueue fails, the listing succeeds and shows the entry
      with a time at most a tenth of the real one, hence a backlog age that is wrong. */
  lemma CutTimeIsListed(env: Env, head: Head, n: nat, t: I64, k: nat) returns (x: I64)
    requires QueueCodecs(env) && env.sizeOf(head) == Some(n) && 0 <= t && 0 < k < |Text(t)|
    ensures var faults := CALM.(fate := (f: File) => if f == PendingEnq(n) then Torn(k) else Done);
            var ops := [Enqueue(head, t, faults, ALIVE)];
            && Enqueued(env, map[], head, t, faults, ALIVE).1 == Err(Io)
            && Lists(After(env, ops).files, [n])
            && ReadAll(env, After(env, ops).files, [n]) == Ok([PendingEntry(n, head, x)])
    ensures x != t && 10 * x <= t
  {
    var faults := CALM.(fate := (f: File) => if f == PendingEnq(n) then Torn(k) else Done);
    var ops := [Enqueue(head, t, faults, ALIVE)];
    var cut := Text(t)[..k];
    EnqueueIs(env, map[], head, t, faults, ALIVE, n);
    assert ops[..0] == [] && After(env, ops) == Next(env, EMPTY, ops[0]);
    var files := After(env, ops).files;
    assert files == map[PendingSth(n) := Content(env.encHead(head), true), PendingEnq(n) := Content(cut, false)];
    x := CutText(t, cut);
    assert cut[0] != MINUS;
    ReadAllIs(env, files, [n], [PendingEntry(n, head, x)]);
  }

  /** A time file that could not be removed: the next enqueue of that size fails on it, and
      the listing shows the new head with the old time. */
  lemma StaleTimeIsListed(env: Env, head: Head, n: nat, t: I64, t': I64, reason: string)
    requires QueueCodecs(env) && env.sizeOf(head) == Some(n)
    ensures var faults := CALM.(removable := (f: File) => f != PendingEnq(n));
            var before := [Enqueue(head, t, CALM, ALIVE), Quarantine(n, reason, faults, ALIVE)];
            var ops := before + [Enqueue(head, t', CALM, ALIVE)];
            && Enqueued(env, After(env, before).files, head, t', CALM, ALIVE).1 == Err(AlreadyExists(PendingEnq(n)))
            && Lists(After(env, ops).files, [n]) && n in After(env, ops).born && After(env, ops).born[n].now == t'
            && ReadAll(env, After(env, ops).files, [n]) == Ok([PendingEntry(n, head, t)])
  {
    var faults := CALM.(removable := (f: File) => f != PendingEnq(n));
    var a, b, c := Enqueue(head, t, CALM, ALIVE), Quarantine(n, reason, faults, ALIVE), Enqueue(head, t', CALM, ALIVE);
    QuarantinedOnce(env, head, n, t, reason, faults);
    AfterSnoc(env, [a, b], c);
    var files := After(env, [a, b]).files;
    EnqueueIs(env, files, head, t', CALM, ALIVE, n);
    ParseText(t);
    ReadAllIs(env, files[PendingSth(n) := Content(env.encHead(head), true)], [n], [PendingEntry(n, head, t)]);
  }

  /** A head enqueued into an empty queue without faults. */
  lemma EnqueuedOnce(env: Env, head: Head, n: nat, t: I64)
    requires env.sizeOf(head) == Some(n)
    ensures After(env, [Enqueue(head, t, CALM, ALIVE)]).files ==
            map[PendingSth(n) := Content(env.encHead(head), true), PendingEnq(n) := Content(env.encTime(t), true)]
  {
    var a := Enqueue(head, t, CALM, ALIVE);
    AfterSnoc(env, [], a);
    assert [] + [a] == [a];
    EnqueueIs(env, map[], head, t, CALM, ALIVE, n);
  }

  /** Quarantined after that: it is in dead, and its time file is gone if it could be
      removed. */
  lemma QuarantinedOnce(env: Env, head: Head, n: nat, t: I64, reason: string, faults: Faults)
    requires env.sizeOf(head) == Some(n) && (forall f :: faults.fate(f).Done?) && faults.removable(PendingSth(n))
    ensures var dead := map[DeadSth(n) := Content(env.encHead(head), true),
                            DeadErr(n) := Content(env.encText(reason), true)];
            After(env, [Enqueue(head, t, CALM, ALIVE), Quarantine(n, reason, faults, ALIVE)]).files ==
            if faults.removable(PendingEnq(n)) then dead else dead[PendingEnq(n) := Content(env.encTime(t), true)]
  {
    var a, b := Enqueue(head, t, CALM, ALIVE), Quarantine(n, reason, faults, ALIVE);
    EnqueuedOnce(env, head, n, t);
    AfterSnoc(env, [a], b);
    assert [a] + [b] == [a, b];
    QuarantinedIs(env, After(env, [a]).files, n, reason, faults);
  }

  /** A head file cut short: a second enqueue of the head answers false, and the head is
      nowhere. */
  lemma CutHeadIsNotHeld(env: Env, head: Head, n: nat, t: I64, t': I64, k: nat)
    requires QueueCodecs(env) && env.sizeOf(head) == Some(n) && k < |env.encHead(head)|
    ensures var faults := CALM.(fate := (f: File) => if f == PendingSth(n) then Torn(k) else Done);
            var q := After(env, [Enqueue(head, t, faults, ALIVE)]);
            && Enqueued(env, q.files, head, t', CALM, ALIVE) == (q.files, Ok(false))
            && !Held(q.files, n, env.encHead(head))
  {
    var faults := CALM.(fate := (f: File) => if f == PendingSth(n) then Torn(k) else Done);
    var ops := [Enqueue(head, t, faults, ALIVE)];
    EnqueueIs(env, map[], head, t, faults, ALIVE, n);
    assert ops[..0] == [] && After(env, ops) == Next(env, EMPTY, ops[0]);
    assert After(env, ops).files == map[PendingSth(n) := Content(env.encHead(head)[..k], false)];
  }
}
