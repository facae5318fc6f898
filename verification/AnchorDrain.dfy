/** Listing the anchor queue and draining it to a transparency log. */
module AnchorDrain {
  import opened Prelude
  import opened Disk
  import opened MachineInts
  import opened AnchorFiles

  datatype PendingEntry = PendingEntry(treeSize: nat, sth: Head, enqueuedAt: int)

  /** What the log answers to a submission. */
  datatype Answer = Accepted(receipt: Receipt) | Transient | Permanent(reason: string)

  datatype Outcome = Outcome(published: nat, transientFailures: nat, quarantined: nat)

  // --------------------------------------------------------------------- listing

  /** The pending sizes, each once, in ascending order. */
  ghost predicate Lists(files: Files, sizes: seq<nat>) {
    && (forall i, j | 0 <= i < j < |sizes| :: sizes[i] < sizes[j])
    && (forall n: nat :: n in sizes <==> PendingSth(n) in files)
  }

  lemma {:induction false} ListingUnique(a: seq<nat>, b: seq<nat>)
    requires forall i, j | 0 <= i < j < |a| :: a[i] < a[j]
    requires forall i, j | 0 <= i < j < |b| :: b[i] < b[j]
    requires forall n: nat :: n in a <==> n in b
    ensures a == b
  {
    if a != [] {
      assert a[0] in a;
    }
    if b != [] {
      assert b[0] in b;
    }
    if a != [] && b != [] {
      assert a[0] in b && b[0] in a;
      forall n: nat
        ensures n in a[1..] <==> n in b[1..]
      {
        assert n in a <==> n == a[0] || n in a[1..];
        assert n in b <==> n == b[0] || n in b[1..];
      }
      ListingUnique(a[1..], b[1..]);
    }
  }

  function ReadEntry(env: Env, files: Files, n: nat): Result<PendingEntry, QueueError>
    requires PendingSth(n) in files
  {
    match env.decHead(files[PendingSth(n)].bytes)
    case None => Err(Codec)
    case Some(sth) =>
      if PendingEnq(n) !in files then Err(Io)
      else
        match env.decTime(files[PendingEnq(n)].bytes)
        case None => Err(Malformed)
        case Some(t) => Ok(PendingEntry(n, sth, t))
  }

  /** The entries of the listed sizes; the first one that cannot be read fails all. */
  function ReadAll(env: Env, files: Files, sizes: seq<nat>): (r: Result<seq<PendingEntry>, QueueError>)
    requires forall n | n in sizes :: PendingSth(n) in files
    ensures r.Ok? ==> |r.value| == |sizes| && forall i | 0 <= i < |sizes| ::
            ReadEntry(env, files, sizes[i]) == Ok(r.value[i])
    ensures r.Ok? <==> forall i | 0 <= i < |sizes| :: ReadEntry(env, files, sizes[i]).Ok?
  {
    if sizes == [] then Ok([])
    else
      var rest := sizes[..|sizes| - 1];
      match ReadAll(env, files, rest)
      case Err(e) => Err(e)
      case Ok(es) =>
        match ReadEntry(env, files, sizes[|sizes| - 1])
        case Err(e) => Err(e)
        case Ok(entry) => Ok(es + [entry])
  }

  lemma ReadAllIs(env: Env, files: Files, sizes: seq<nat>, entries: seq<PendingEntry>)
    requires forall n | n in sizes :: PendingSth(n) in files
    requires |entries| == |sizes| && forall i | 0 <= i < |sizes| :: ReadEntry(env, files, sizes[i]) == Ok(entries[i])
    ensures ReadAll(env, files, sizes) == Ok(entries)
  {
    var r := ReadAll(env, files, sizes);
    assert forall i | 0 <= i < |sizes| :: ReadEntry(env, files, sizes[i]).Ok?;
    assert forall i | 0 <= i < |sizes| :: r.value[i] == entries[i];
    assert r.value == entries;
  }

  // -------------------------------------------------------------------- draining

  /** Carry out the log's answer for entry n. */
  function Move(env: Env, files: Files, n: nat, answer: Answer, faults: Faults): (Files, Result<(), QueueError>)
    requires !answer.Transient?
  {
    if answer.Accepted? then Marked(env, files, n, answer.receipt, faults, ALIVE)
    else Quarantined(env, files, n, answer.reason, faults, ALIVE)
  }

  function Tally(o: Outcome, answer: Answer): Outcome {
    match answer
    case Accepted(_) => o.(published := o.published + 1)
    case Transient => o.(transientFailures := o.transientFailures + 1)
    case Permanent(_) => o.(quarantined := o.quarantined + 1)
  }

  /** Submit the entries in order from number i on. */
  function DrainFrom(env: Env, files: Files, entries: seq<PendingEntry>, i: nat, submit: Head -> Answer,
                     faults: Faults, o: Outcome)
    : (Files, Result<Outcome, QueueError>)
    requires i <= |entries|
    decreases |entries| - i
  {
    if i == |entries| then (files, Ok(o))
    else
      var answer := submit(entries[i].sth);
      if answer.Transient? then (files, Ok(Tally(o, answer)))
      else
        var (files', r) := Move(env, files, entries[i].treeSize, answer, faults);
        if r.Err? then (files', Err(r.error))
        else DrainFrom(env, files', entries, i + 1, submit, faults, Tally(o, answer))
  }

  const NOTHING: Outcome := Outcome(0, 0, 0)

  /** An entry whose move cannot fail: its target files are free and can be written. */
  predicate CanMove(files: Files, faults: Faults, n: nat, answer: Answer) {
    match answer
    case Transient => true
    case Accepted(_) => ReceiptFile(n) !in files && faults.fate(ReceiptFile(n)).Done?
    case Permanent(_) =>
      && DeadSth(n) !in files && faults.fate(DeadSth(n)).Done?
      && DeadErr(n) !in files && faults.fate(DeadErr(n)).Done?
  }

  function Unqueued(files: Files, faults: Faults, n: nat): Files {
    var files' := Removed(files, PendingSth(n), faults.removable(PendingSth(n)));
    Removed(files', PendingEnq(n), faults.removable(PendingEnq(n)))
  }

  /** Marking an entry, written out. */
  lemma MarkedIs(env: Env, files: Files, n: nat, receipt: Receipt, faults: Faults)
    ensures var f := ReceiptFile(n);
            var (files1, r) := Created(files, f, env.encReceipt(receipt), faults.fate(f));
            Marked(env, files, n, receipt, faults, ALIVE) ==
            if r.Err? then (files1, r) else (Unqueued(files1, faults, n), Ok(()))
  {
    var f, x, y := ReceiptFile(n), Remove(PendingSth(n)), Remove(PendingEnq(n));
    var a := Create(f, env.encReceipt(receipt));
    assert MarkOps(env, n, receipt) == [a] + ([x] + ([y] + []));
    ExecCons(files, a, [x] + ([y] + []), faults, 4);
    UnqueueIs(Created(files, f, a.bytes, faults.fate(f)).0, faults, n, 3);
  }

  lemma UnqueueIs(files: Files, faults: Faults, n: nat, budget: nat)
    requires budget >= 2
    ensures Exec(files, [Remove(PendingSth(n))] + ([Remove(PendingEnq(n))] + []), faults, budget) ==
            (Unqueued(files, faults, n), Ok(()))
  {
    var x, y := Remove(PendingSth(n)), Remove(PendingEnq(n));
    ExecCons(files, x, [y] + [], faults, budget);
    ExecCons(Removed(files, x.file, faults.removable(x.file)), y, [], faults, budget - 1);
  }

  lemma QuarantinedIs(env: Env, files: Files, n: nat, reason: string, faults: Faults)
    requires PendingSth(n) in files
    ensures var (files1, r1) := Created(files, DeadSth(n), files[PendingSth(n)].bytes, faults.fate(DeadSth(n)));
            var (files2, r2) := Created(files1, DeadErr(n), env.encText(reason), faults.fate(DeadErr(n)));
            Quarantined(env, files, n, reason, faults, ALIVE) ==
            if r1.Err? then (files1, r1) else if r2.Err? then (files2, r2) else (Unqueued(files2, faults, n), Ok(()))
  {
    var x, y := Remove(PendingSth(n)), Remove(PendingEnq(n));
    var a, b := Create(DeadSth(n), files[PendingSth(n)].bytes), Create(DeadErr(n), env.encText(reason));
    assert QuarantineOps(env, files, n, reason) == [a] + ([b] + ([x] + ([y] + [])));
    ExecCons(files, a, [b] + ([x] + ([y] + [])), faults, 4);
    var (files1, r1) := Created(files, a.file, a.bytes, faults.fate(a.file));
    if r1.Ok? {
      ExecCons(files1, b, [x] + ([y] + []), faults, 3);
      UnqueueIs(Created(files1, b.file, b.bytes, faults.fate(b.file)).0, faults, n, 2);
    }
  }

  /** What moving entry n out of pending does: succeeds exactly when it can, and
      touches no other size. */
  lemma MoveEffect(env: Env, files: Files, n: nat, answer: Answer, faults: Faults)
    requires PendingSth(n) in files && !answer.Transient?
    ensures var (files', r) := Move(env, files, n, answer, faults);
            && (r.Ok? <==> CanMove(files, faults, n, answer))
            && (forall f: File | f.n != n :: (f in files' <==> f in files) && (f in files ==> files'[f] == files[f]))
            && (r.Ok? ==>
                  && (faults.removable(PendingSth(n)) ==> PendingSth(n) !in files')
                  && (faults.removable(PendingEnq(n)) ==> PendingEnq(n) !in files')
                  && (answer.Accepted? ==>
                        ReceiptFile(n) in files' &&
                        files'[ReceiptFile(n)] == Content(env.encReceipt(answer.receipt), true))
                  && (answer.Permanent? ==>
                        DeadSth(n) in files' && files'[DeadSth(n)] == Content(files[PendingSth(n)].bytes, true)))
  {
    if answer.Accepted? {
      MarkedIs(env, files, n, answer.receipt, faults);
    } else {
      QuarantinedIs(env, files, n, answer.reason, faults);
    }
  }

  // ------------------------------------------------------------ what a drain does

  /** The first entry from i on that meets a transient failure (or the end). */
  function Stop(entries: seq<PendingEntry>, i: nat, submit: Head -> Answer): (k: nat)
    requires i <= |entries|
    ensures i <= k <= |entries|
    ensures forall j | i <= j < k :: !submit(entries[j].sth).Transient?
    ensures k < |entries| ==> submit(entries[k].sth).Transient?
    decreases |entries| - i
  {
    if i == |entries| || submit(entries[i].sth).Transient? then i else Stop(entries, i + 1, submit)
  }

  /** How many of the entries i..k are anchored. */
  function CountAccepted(entries: seq<PendingEntry>, i: nat, k: nat, submit: Head -> Answer): (c: nat)
    requires i <= k <= |entries|
    ensures c <= k - i
    decreases k - i
  {
    if i == k then 0 else (if submit(entries[i].sth).Accepted? then 1 else 0) + CountAccepted(entries, i + 1, k, submit)
  }

  predicate Ascending(entries: seq<PendingEntry>) {
    forall i, j | 0 <= i < j < |entries| :: entries[i].treeSize < entries[j].treeSize
  }

  /** Entry number j has left pending for the place its answer names. */
  predicate Moved(env: Env, files: Files, files': Files, faults: Faults, entry: PendingEntry, answer: Answer)
    requires PendingSth(entry.treeSize) in files
  {
    var n := entry.treeSize;
    && (faults.removable(PendingSth(n)) ==> PendingSth(n) !in files')
    && (faults.removable(PendingEnq(n)) ==> PendingEnq(n) !in files')
    && (answer.Accepted? ==>
          ReceiptFile(n) in files' && files'[ReceiptFile(n)] == Content(env.encReceipt(answer.receipt), true))
    && (answer.Permanent? ==> DeadSth(n) in files' && files'[DeadSth(n)] == Content(files[PendingSth(n)].bytes, true))
  }

  /** The answers of the entries i..k can all be carried out. */
  predicate AllCanMove(files: Files, entries: seq<PendingEntry>, i: nat, k: nat, submit: Head -> Answer, faults: Faults)
    requires k <= |entries|
  {
    forall j | i <= j < k :: CanMove(files, faults, entries[j].treeSize, submit(entries[j].sth))
  }

  function Sizes(entries: seq<PendingEntry>, i: nat, k: nat): set<nat>
    requires k <= |entries|
  {
    set j | i <= j < k :: entries[j].treeSize
  }

  /** Files of sizes outside the drained entries are as they were. */
  ghost predicate OthersSame(files: Files, files': Files, sizes: set<nat>) {
    forall f: File | f.n !in sizes :: SameFile(files, files', f)
  }

  ghost predicate AllPending(files: Files, entries: seq<PendingEntry>, i: nat) {
    forall j | i <= j < |entries| :: PendingSth(entries[j].treeSize) in files
  }

  /** Moving one entry leaves the later ones as movable and as pending as they were. */
  lemma MoveLeavesRest(env: Env, files: Files, entries: seq<PendingEntry>, i: nat, k: nat, submit: Head -> Answer,
                       faults: Faults)
    requires i < k <= |entries| && Ascending(entries) && AllPending(files, entries, i) &&
             !submit(entries[i].sth).Transient?
    ensures var files1 := Move(env, files, entries[i].treeSize, submit(entries[i].sth), faults).0;
            && AllPending(files1, entries, i + 1) && OthersSame(files, files1, {entries[i].treeSize})
            && (AllCanMove(files, entries, i, k, submit, faults) <==>
                Move(env, files, entries[i].treeSize, submit(entries[i].sth), faults).1.Ok? &&
                  AllCanMove(files1, entries, i + 1, k, submit, faults))
  {
    MoveEffect(env, files, entries[i].treeSize, submit(entries[i].sth), faults);
    var files1 := Move(env, files, entries[i].treeSize, submit(entries[i].sth), faults).0;
    forall j | i < j < |entries|
      ensures PendingSth(entries[j].treeSize) in files1
      ensures CanMove(files1, faults, entries[j].treeSize, submit(entries[j].sth)) <==>
              CanMove(files, faults, entries[j].treeSize, submit(entries[j].sth))
    {
      assert SameFile(files, files1, PendingSth(entries[j].treeSize));
    }
  }

  /** The counts after moving the entries i..k: those accepted are published, the
      others quarantined, and one transient failure if the drain stopped early. */
  function Counted(entries: seq<PendingEntry>, i: nat, k: nat, submit: Head -> Answer, o: Outcome): Outcome
    requires i <= k <= |entries|
  {
    var accepted := CountAccepted(entries, i, k, submit);
    Outcome(o.published + accepted, o.transientFailures + (if k < |entries| then 1 else 0),
            o.quarantined + (k - i - accepted))
  }

  lemma TallyCounts(entries: seq<PendingEntry>, i: nat, k: nat, submit: Head -> Answer, o: Outcome)
    requires i < k <= |entries| && !submit(entries[i].sth).Transient?
    ensures Counted(entries, i + 1, k, submit, Tally(o, submit(entries[i].sth))) == Counted(entries, i, k, submit, o)
  {
  }

  /** A drain answers Ok exactly when every move up to the first transient failure can
      be made; its counts are then those of the moves. */
  lemma {:induction false} DrainSucceedsIff(env: Env, files: Files, entries: seq<PendingEntry>, i: nat,
                                            submit: Head -> Answer, faults: Faults, o: Outcome)
    requires i <= |entries| && Ascending(entries) && AllPending(files, entries, i)
    ensures var k := Stop(entries, i, submit);
            var r := DrainFrom(env, files, entries, i, submit, faults, o).1;
            && (r.Ok? <==> AllCanMove(files, entries, i, k, submit, faults))
            && (r.Ok? ==> r.value == Counted(entries, i, k, submit, o))
    decreases |entries| - i
  {
    var k := Stop(entries, i, submit);
    if i < k {
      var n, answer := entries[i].treeSize, submit(entries[i].sth);
      MoveLeavesRest(env, files, entries, i, k, submit, faults);
      var (files1, r1) := Move(env, files, n, answer, faults);
      if r1.Ok? {
        DrainSucceedsIff(env, files1, entries, i + 1, submit, faults, Tally(o, answer));
        TallyCounts(entries, i, k, submit, o);
      }
    }
  }

  /** After a successful drain exactly the entries before the first transient failure
      have moved, each to the place its answer names, and nothing else has changed. */
  lemma {:induction false} DrainMovesPrefix(env: Env, files: Files, entries: seq<PendingEntry>, i: nat,
                                            submit: Head -> Answer, faults: Faults, o: Outcome)
    requires i <= |entries| && Ascending(entries) && AllPending(files, entries, i)
    requires DrainFrom(env, files, entries, i, submit, faults, o).1.Ok?
    ensures var k, files' := Stop(entries, i, submit), DrainFrom(env, files, entries, i, submit, faults, o).0;
            && (forall j | i <= j < k :: Moved(env, files, files', faults, entries[j], submit(entries[j].sth)))
            && OthersSame(files, files', Sizes(entries, i, k))
    decreases |entries| - i
  {
    var k, files' := Stop(entries, i, submit), DrainFrom(env, files, entries, i, submit, faults, o).0;
    if i < k {
      var n, answer := entries[i].treeSize, submit(entries[i].sth);
      MoveEffect(env, files, n, answer, faults);
      MoveLeavesRest(env, files, entries, i, k, submit, faults);
      var files1 := Move(env, files, n, answer, faults).0;
      DrainMovesPrefix(env, files1, entries, i + 1, submit, faults, Tally(o, answer));
      assert n !in Sizes(entries, i + 1, k);
      forall j | i <= j < k
        ensures Moved(env, files, files', faults, entries[j], submit(entries[j].sth))
      {
        if j == i {
          assert SameFile(files1, files', PendingSth(n)) && SameFile(files1, files', PendingEnq(n));
          assert SameFile(files1, files', ReceiptFile(n)) && SameFile(files1, files', DeadSth(n));
        } else {
          assert Moved(env, files1, files', faults, entries[j], submit(entries[j].sth));
          assert SameFile(files, files1, PendingSth(entries[j].treeSize));
        }
      }
      forall f: File | f.n !in Sizes(entries, i, k)
        ensures SameFile(files, files', f)
      {
        assert entries[i].treeSize in Sizes(entries, i, k) && f.n !in Sizes(entries, i + 1, k);
        assert SameFile(files, files1, f) && SameFile(files1, files', f);
      }
    }
  }

  /** Dropping the first k listed sizes leaves the listing of the rest. */
  lemma SuffixListed(files: Files, files': Files, sizes: seq<nat>, k: nat)
    requires Lists(files, sizes) && k <= |sizes|
    requires forall j | 0 <= j < k :: PendingSth(sizes[j]) !in files'
    requires forall n: nat | n !in sizes[..k] :: PendingSth(n) in files' <==> PendingSth(n) in files
    ensures Lists(files', sizes[k..])
  {
    forall n: nat
      ensures n in sizes[k..] <==> PendingSth(n) in files'
    {
      assert sizes == sizes[..k] + sizes[k..];
      if n in sizes[..k] {
        var j :| 0 <= j < k && sizes[j] == n;
        assert PendingSth(sizes[j]) !in files';
      } else {
        assert n in sizes <==> n in sizes[k..];
      }
    }
  }

  lemma SuffixRead(env: Env, files: Files, files': Files, sizes: seq<nat>, k: nat)
    requires Lists(files, sizes) && ReadAll(env, files, sizes).Ok? && k <= |sizes| && Lists(files', sizes[k..])
    requires forall j | k <= j < |sizes| ::
               SameFile(files, files', PendingSth(sizes[j])) && SameFile(files, files', PendingEnq(sizes[j]))
    ensures ReadAll(env, files', sizes[k..]) == Ok(ReadAll(env, files, sizes).value[k..])
  {
    var entries, rest := ReadAll(env, files, sizes).value, sizes[k..];
    forall j | 0 <= j < |rest|
      ensures rest[j] in sizes && ReadEntry(env, files', rest[j]) == Ok(entries[k + j])
    {
      assert rest[j] == sizes[k + j] && sizes[k + j] in sizes;
      assert SameFile(files, files', PendingSth(sizes[k + j])) && SameFile(files, files', PendingEnq(sizes[k + j]));
      assert ReadEntry(env, files, sizes[k + j]) == Ok(entries[k + j]);
    }
    ReadAllIs(env, files', rest, entries[k..]);
  }

  /** With every removal succeeding, what is left in pending is exactly the suffix from
      the first transient failure on. */
  lemma DrainLeavesSuffix(env: Env, files: Files, sizes: seq<nat>, submit: Head -> Answer, faults: Faults)
    requires Lists(files, sizes) && ReadAll(env, files, sizes).Ok?
    requires forall f :: faults.removable(f)
    requires DrainFrom(env, files, ReadAll(env, files, sizes).value, 0, submit, faults, NOTHING).1.Ok?
    ensures var entries := ReadAll(env, files, sizes).value;
            var files' := DrainFrom(env, files, entries, 0, submit, faults, NOTHING).0;
            var k := Stop(entries, 0, submit);
            && Lists(files', sizes[k..])
            && ReadAll(env, files', sizes[k..]) == Ok(entries[k..])
  {
    var entries := ReadAll(env, files, sizes).value;
    var k, files' := Stop(entries, 0, submit), DrainFrom(env, files, entries, 0, submit, faults, NOTHING).0;
    EntriesMatch(env, files, sizes);
    DrainMovesPrefix(env, files, entries, 0, submit, faults, NOTHING);
    MovedOut(env, files, files', sizes, entries, k, submit, faults);
    SuffixListed(files, files', sizes, k);
    SuffixRead(env, files, files', sizes, k);
  }

  /** With every removal succeeding, a pass over a queue that can be listed ends well
      exactly when the moves up to the first transient failure can be made; any later
      listing then is the rest of the first. */
  lemma DrainSettles(env: Env, files: Files, sizes: seq<nat>, submit: Head -> Answer, faults: Faults, left: seq<nat>)
    requires Lists(files, sizes) && ReadAll(env, files, sizes).Ok? && forall f :: faults.removable(f)
    requires Lists(DrainFrom(env, files, ReadAll(env, files, sizes).value, 0, submit, faults, NOTHING).0, left)
    ensures var entries := ReadAll(env, files, sizes).value;
            var (files', d) := DrainFrom(env, files, entries, 0, submit, faults, NOTHING);
            var k := Stop(entries, 0, submit);
            && (d.Ok? <==> AllCanMove(files, entries, 0, k, submit, faults))
            && (d.Ok? ==>
                  && d.value == Counted(entries, 0, k, submit, NOTHING)
                  && left == sizes[k..] && ReadAll(env, files', left) == Ok(entries[k..]))
  {
    var entries := ReadAll(env, files, sizes).value;
    EntriesMatch(env, files, sizes);
    DrainSucceedsIff(env, files, entries, 0, submit, faults, NOTHING);
    if DrainFrom(env, files, entries, 0, submit, faults, NOTHING).1.Ok? {
      DrainLeavesSuffix(env, files, sizes, submit, faults);
      ListingUnique(left, sizes[Stop(entries, 0, submit)..]);
    }
  }

  /** What the moves say about pending, size by size. */
  lemma MovedOut(env: Env, files: Files, files': Files, sizes: seq<nat>, entries: seq<PendingEntry>, k: nat,
                 submit: Head -> Answer, faults: Faults)
    requires k <= |sizes| == |entries| && Lists(files, sizes) && AllPending(files, entries, 0)
    requires forall j | 0 <= j < |sizes| :: entries[j].treeSize == sizes[j]
    requires forall f :: faults.removable(f)
    requires forall j | 0 <= j < k :: Moved(env, files, files', faults, entries[j], submit(entries[j].sth))
    requires OthersSame(files, files', Sizes(entries, 0, k))
    ensures forall j | 0 <= j < k :: PendingSth(sizes[j]) !in files'
    ensures forall n: nat | n !in sizes[..k] :: PendingSth(n) in files' <==> PendingSth(n) in files
    ensures forall j | k <= j < |sizes| ::
              SameFile(files, files', PendingSth(sizes[j])) && SameFile(files, files', PendingEnq(sizes[j]))
  {
    forall j | 0 <= j < k
      ensures PendingSth(sizes[j]) !in files'
    {
      assert Moved(env, files, files', faults, entries[j], submit(entries[j].sth));
    }
    forall n: nat | n !in sizes[..k]
      ensures SameFile(files, files', PendingSth(n)) && SameFile(files, files', PendingEnq(n))
    {
      forall j | 0 <= j < k
        ensures entries[j].treeSize != n
      {
        assert sizes[..k][j] == sizes[j];
      }
      assert n !in Sizes(entries, 0, k);
    }
    forall j | k <= j < |sizes|
      ensures sizes[j] !in sizes[..k]
    {
    }
  }

  lemma EntriesMatch(env: Env, files: Files, sizes: seq<nat>)
    requires Lists(files, sizes) && ReadAll(env, files, sizes).Ok?
    ensures var entries := ReadAll(env, files, sizes).value;
            Ascending(entries) && AllPending(files, entries, 0) && forall j | 0 <= j < |sizes| ::
              entries[j].treeSize == sizes[j]
  {
    var entries := ReadAll(env, files, sizes).value;
    forall j | 0 <= j < |sizes|
      ensures entries[j].treeSize == sizes[j] && PendingSth(sizes[j]) in files
    {
      assert ReadEntry(env, files, sizes[j]) == Ok(entries[j]);
      assert sizes[j] in sizes;
    }
  }

  // ---------------------------------------------------------------------- in code

  /** The age of the oldest pending entry. */
  predicate IsBacklog(entries: seq<PendingEntry>, now: int, age: Option<int>) {
    match age
    case None => entries == []
    case Some(a) =>
      && (exists i | 0 <= i < |entries| :: a == now - entries[i].enqueuedAt)
      && (forall i | 0 <= i < |entries| :: now - entries[i].enqueuedAt <= a)
  }

  class AnchorQueue {
    var files: Files
    const env: Env

    constructor (env: Env)
      ensures files == map[] && this.env == env
    {
      this.files := map[];
      this.env := env;
    }

    method WriteNew(file: File, bytes: Bytes, fate: Fate) returns (r: Result<(), QueueError>)
      modifies this
      ensures (files, r) == Created(old(files), file, bytes, fate)
    {
      if fate.OpenFails? {
        return Err(Io);
      }
      if file in files {
        return Err(AlreadyExists(file));
      }
      files := files[file := Content(Landed(bytes, fate), fate.Done?)];
      r := if fate.Done? then Ok(()) else Err(Io);
    }

    method Enqueue(head: Head, now: I64, faults: Faults) returns (r: Result<bool, QueueError>)
      modifies this
      ensures (files, r) == Enqueued(env, old(files), head, now, faults, ALIVE)
    {
      var size := env.sizeOf(head);
      if size.None? {
        return Err(Codec);
      }
      var n := size.value;
      if PendingSth(n) in files || ReceiptFile(n) in files {
        return Ok(false);
      }
      ghost var a, b := Create(PendingSth(n), env.encHead(head)), Create(PendingEnq(n), env.encTime(now));
      assert EnqueueOps(env, n, head, now) == [a] + ([b] + []);
      ExecCons(files, a, [b] + [], faults, ALIVE);
      var w := WriteNew(PendingSth(n), env.encHead(head), faults.fate(PendingSth(n)));
      if w.Err? {
        return Err(w.error);
      }
      ExecCons(files, b, [], faults, 3);
      w := WriteNew(PendingEnq(n), env.encTime(now), faults.fate(PendingEnq(n)));
      if w.Err? {
        return Err(w.error);
      }
      r := Ok(true);
    }

    method MarkAnchored(n: nat, receipt: Receipt, faults: Faults) returns (r: Result<(), QueueError>)
      modifies this
      ensures (files, r) == Marked(env, old(files), n, receipt, faults, ALIVE)
    {
      MarkedIs(env, files, n, receipt, faults);
      r := WriteNew(ReceiptFile(n), env.encReceipt(receipt), faults.fate(ReceiptFile(n)));
      if r.Ok? {
        files := Removed(files, PendingSth(n), faults.removable(PendingSth(n)));
        files := Removed(files, PendingEnq(n), faults.removable(PendingEnq(n)));
      }
    }

    method QuarantineEntry(n: nat, reason: string, faults: Faults) returns (r: Result<(), QueueError>)
      modifies this
      ensures (files, r) == Quarantined(env, old(files), n, reason, faults, ALIVE)
    {
      if PendingSth(n) !in files {
        return Err(Io);
      }
      QuarantinedIs(env, files, n, reason, faults);
      r := WriteNew(DeadSth(n), files[PendingSth(n)].bytes, faults.fate(DeadSth(n)));
      if r.Err? {
        return;
      }
      r := WriteNew(DeadErr(n), env.encText(reason), faults.fate(DeadErr(n)));
      if r.Err? {
        return;
      }
      files := Removed(files, PendingSth(n), faults.removable(PendingSth(n)));
      files := Removed(files, PendingEnq(n), faults.removable(PendingEnq(n)));
    }

    /** The directory scan and the sort: each size found is put in its place. */
    method ListSizes() returns (sizes: seq<nat>)
      ensures Lists(files, sizes)
    {
      sizes := [];
      var todo := files.Keys;
      while todo != {}
        invariant todo <= files.Keys
        invariant forall i, j | 0 <= i < j < |sizes| :: sizes[i] < sizes[j]
        invariant forall n: nat :: n in sizes <==> PendingSth(n) in files && PendingSth(n) !in todo
        decreases todo
      {
        var f :| f in todo;
        todo := todo - {f};
        if f.PendingSth? {
          sizes := InsertSorted(sizes, f.n);
        }
      }
    }

    method ListPending() returns (r: Result<seq<PendingEntry>, QueueError>, sizes: seq<nat>)
      ensures Lists(files, sizes) && r == ReadAll(env, files, sizes)
    {
      sizes := ListSizes();
      var out: seq<PendingEntry> := [];
      for i := 0 to |sizes|
        invariant ReadAll(env, files, sizes[..i]) == Ok(out)
      {
        assert sizes[i] in sizes;
        assert sizes[..i + 1][..i] == sizes[..i] && sizes[..i + 1][i] == sizes[i];
        var e := ReadEntry(env, files, sizes[i]);
        if e.Err? {
          ReadAllFails(env, files, sizes, i + 1);
          return Err(e.error), sizes;
        }
        out := out + [e.value];
      }
      assert sizes[..|sizes|] == sizes;
      r := Ok(out);
    }

    method BacklogSeconds(now: int) returns (r: Result<Option<int>, QueueError>, sizes: seq<nat>)
      ensures Lists(files, sizes)
      ensures match ReadAll(env, files, sizes)
              case Err(e) => r == Err(e)
              case Ok(entries) => r.Ok? && IsBacklog(entries, now, r.value)
    {
      var p;
      p, sizes := ListPending();
      if p.Err? {
        return Err(p.error), sizes;
      }
      var entries, oldest: Option<int> := p.value, None;
      for i := 0 to |entries|
        invariant oldest.None? <==> i == 0
        invariant oldest.Some? ==> exists j | 0 <= j < i :: oldest.value == entries[j].enqueuedAt
        invariant oldest.Some? ==> forall j | 0 <= j < i :: oldest.value <= entries[j].enqueuedAt
      {
        var t := entries[i].enqueuedAt;
        oldest := Some(if oldest.None? then t else Min(oldest.value, t));
      }
      r := Ok(if oldest.None? then None else Some(now - oldest.value));
    }

    /** The loop of a drain pass over the listed entries. */
    method SubmitAll(entries: seq<PendingEntry>, submit: Head -> Answer, faults: Faults)
      returns (r: Result<Outcome, QueueError>)
      modifies this
      ensures (files, r) == DrainFrom(env, old(files), entries, 0, submit, faults, NOTHING)
    {
      var o := NOTHING;
      for i := 0 to |entries|
        invariant DrainFrom(env, files, entries, i, submit, faults, o) ==
                  DrainFrom(env, old(files), entries, 0, submit, faults, NOTHING)
      {
        var entry, answer := entries[i], submit(entries[i].sth);
        var w: Result<(), QueueError>;
        match answer {
          case Accepted(receipt) => w := MarkAnchored(entry.treeSize, receipt, faults);
          case Transient => return Ok(Tally(o, answer));
          case Permanent(reason) => w := QuarantineEntry(entry.treeSize, reason, faults);
        }
        if w.Err? {
          return Err(w.error);
        }
        o := Tally(o, answer);
      }
      r := Ok(o);
    }

    /** One drain pass: list, submit in ascending order, then measure the backlog. With
        every removal succeeding it ends well exactly when the moves up to the first
        transient failure can be made, and leaves exactly the rest. */
    method DrainOnce(submit: Head -> Answer, now: int, faults: Faults)
      returns (r: Result<(Outcome, Option<int>), QueueError>, sizes: seq<nat>, left: seq<nat>)
      modifies this
      ensures Lists(old(files), sizes) && Lists(files, left)
      ensures match ReadAll(env, old(files), sizes)
              case Err(e) => r == Err(e) && files == old(files)
              case Ok(entries) =>
                var (after, d) := DrainFrom(env, old(files), entries, 0, submit, faults, NOTHING);
                files == after &&
                if d.Err? then r == Err(d.error)
                else match ReadAll(env, files, left) {
                  case Err(e) => r == Err(e)
                  case Ok(rest) => r.Ok? && r.value.0 == d.value && IsBacklog(rest, now, r.value.1)
                }
      ensures (forall f :: faults.removable(f)) && ReadAll(env, old(files), sizes).Ok? ==>
                var entries := ReadAll(env, old(files), sizes).value;
                var k := Stop(entries, 0, submit);
                && (r.Ok? <==> AllCanMove(old(files), entries, 0, k, submit, faults))
                && (r.Ok? ==>
                      && left == sizes[k..] && ReadAll(env, files, left) == Ok(entries[k..])
                      && r.value.0 == Counted(entries, 0, k, submit, NOTHING)
                      && IsBacklog(entries[k..], now, r.value.1))
    {
      var p;
      p, sizes := ListPending();
      if p.Err? {
        return Err(p.error), sizes, sizes;
      }
      var d := SubmitAll(p.value, submit, faults);
      if d.Err? {
        left := ListSizes();
        r := Err(d.error);
      } else {
        var b;
        b, left := BacklogSeconds(now);
        r := if b.Err? then Err(b.error) else Ok((d.value, b.value));
      }
      if forall f :: faults.removable(f) {
        DrainSettles(env, old(files), sizes, submit, faults, left);
      }
    }
  }

  /** Once an entry fails, every longer listing fails with the same error. */
  lemma {:induction false} ReadAllFails(env: Env, files: Files, sizes: seq<nat>, k: nat)
    requires forall n | n in sizes :: PendingSth(n) in files
    requires k <= |sizes| && ReadAll(env, files, sizes[..k]).Err?
    ensures ReadAll(env, files, sizes) == ReadAll(env, files, sizes[..k])
    decreases |sizes|
  {
    if k < |sizes| {
      var shorter := sizes[..|sizes| - 1];
      assert shorter[..k] == sizes[..k];
      ReadAllFails(env, files, shorter, k);
    } else {
      assert sizes[..k] == sizes;
    }
  }

  method InsertSorted(sizes: seq<nat>, n: nat) returns (r: seq<nat>)
    requires forall i, j | 0 <= i < j < |sizes| :: sizes[i] < sizes[j]
    requires n !in sizes
    ensures forall i, j | 0 <= i < j < |r| :: r[i] < r[j]
    ensures forall m: nat :: m in r <==> m in sizes || m == n
  {
    var k := 0;
    while k < |sizes| && sizes[k] < n
      invariant 0 <= k <= |sizes| && forall i | 0 <= i < k :: sizes[i] < n
    {
      k := k + 1;
    }
    assert k < |sizes| ==> sizes[k] in sizes;
    r := sizes[..k] + [n] + sizes[k..];
    forall m: nat | m in sizes
      ensures m in r
    {
      var i :| 0 <= i < |sizes| && sizes[i] == m;
      assert r[if i < k then i else i + 1] == m;
    }
    assert r[k] == n;
  }
}
