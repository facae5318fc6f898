/** The disk-backed anchor queue: heads wait in pending, and leave it for receipts
    (anchored) or dead (refused for good). */
module AnchorFiles {
  import opened Prelude
  import opened Disk
  import opened MachineInts
  import AuditStore

  /** A co-signed head, as the queue sees it: bytes it stores and hands to the anchor. */
  type Head = AuditStore.Head

  datatype Receipt = Receipt(anchorName: string, treeSize: nat, logIndex: nat, receiptBytes: Bytes, anchoredAt: int)

  datatype File =
    | PendingSth(n: nat)
    | PendingEnq(n: nat)
    | ReceiptFile(n: nat)
    | DeadSth(n: nat)
    | DeadErr(n: nat)

  /** A file's bytes, and whether its creation ran to the end. */
  datatype Content = Content(bytes: Bytes, complete: bool)

  type Files = map<File, Content>

  datatype Env = Env(
    encHead: Head -> Bytes,
    decHead: Bytes -> Option<Head>,
    sizeOf: Head -> Option<nat>,
    encTime: I64 -> Bytes,
    decTime: Bytes -> Option<int>,
    encReceipt: Receipt -> Bytes,
    encText: string -> Bytes)

  /** What the file system does to each creation and each removal. */
  datatype Faults = Faults(fate: File -> Fate, removable: File -> bool)

  datatype QueueError = Io | AlreadyExists(file: File) | Codec | Malformed

  // ------------------------------------------------------------- file operations

  datatype FileOp = Create(file: File, bytes: Bytes) | Remove(file: File)

  function Created(files: Files, file: File, bytes: Bytes, fate: Fate): (Files, Result<(), QueueError>) {
    if fate.OpenFails? then (files, Err(Io))
    else if file in files then (files, Err(AlreadyExists(file)))
    else (files[file := Content(Landed(bytes, fate), fate.Done?)], if fate.Done? then Ok(()) else Err(Io))
  }

  function Removed(files: Files, file: File, removable: bool): Files {
    if removable then files - {file} else files
  }

  /** Run operations in order; a failed creation ends the program, a failed removal
      does not, and the process dies after `budget` operations. */
  function Exec(files: Files, ops: seq<FileOp>, faults: Faults, budget: nat): (Files, Result<(), QueueError>)
    decreases |ops|
  {
    if ops == [] then (files, Ok(()))
    else if budget == 0 then (files, Err(Io))
    else
      match ops[0]
      case Create(f, bytes) =>
        var (files', r) := Created(files, f, bytes, faults.fate(f));
        if r.Err? then (files', r) else Exec(files', ops[1..], faults, budget - 1)
      case Remove(f) => Exec(Removed(files, f, faults.removable(f)), ops[1..], faults, budget - 1)
  }

  lemma ExecCons(files: Files, op: FileOp, rest: seq<FileOp>, faults: Faults, budget: nat)
    requires budget > 0
    ensures Exec(files, [op] + rest, faults, budget) ==
            match op {
              case Create(f, bytes) =>
                var (files', r) := Created(files, f, bytes, faults.fate(f));
                if r.Err? then (files', r) else Exec(files', rest, faults, budget - 1)
              case Remove(f) => Exec(Removed(files, f, faults.removable(f)), rest, faults, budget - 1)
            }
  {
    assert ([op] + rest)[1..] == rest;
  }

  predicate SameFile(files: Files, files': Files, f: File) {
    (f in files' <==> f in files) && (f in files ==> files'[f] == files[f])
  }

  /** A program leaves alone the files it does not name. */
  lemma {:induction false} ExecTouches(files: Files, ops: seq<FileOp>, faults: Faults, budget: nat, f: File)
    requires forall op | op in ops :: op.file != f
    ensures SameFile(files, Exec(files, ops, faults, budget).0, f)
    decreases |ops|
  {
    if ops != [] && budget > 0 {
      assert ops[0] in ops && forall op | op in ops[1..] :: op in ops;
      match ops[0]
      case Create(g, bytes) =>
        ExecTouches(Created(files, g, bytes, faults.fate(g)).0, ops[1..], faults, budget - 1, f);
      case Remove(g) =>
        ExecTouches(Removed(files, g, faults.removable(g)), ops[1..], faults, budget - 1, f);
    }
  }

  /** A file there afterwards was there before, or holds the first bytes of what the
      program creates it with. */
  lemma {:induction false} ExecCreates(files: Files, ops: seq<FileOp>, faults: Faults, budget: nat, f: File)
    ensures var after := Exec(files, ops, faults, budget).0;
            f in after ==>
              || (f in files && after[f] == files[f])
              || (exists op | op in ops :: op.Create? && op.file == f && after[f].bytes <= op.bytes)
    decreases |ops|
  {
    if ops != [] && budget > 0 {
      assert ops[0] in ops && forall op | op in ops[1..] :: op in ops;
      match ops[0]
      case Create(g, bytes) =>
        ExecCreates(Created(files, g, bytes, faults.fate(g)).0, ops[1..], faults, budget - 1, f);
      case Remove(g) =>
        ExecCreates(Removed(files, g, faults.removable(g)), ops[1..], faults, budget - 1, f);
    }
  }

  function EnqueueOps(env: Env, n: nat, head: Head, now: I64): seq<FileOp> {
    [Create(PendingSth(n), env.encHead(head)), Create(PendingEnq(n), env.encTime(now))]
  }

  function MarkOps(env: Env, n: nat, receipt: Receipt): seq<FileOp> {
    [Create(ReceiptFile(n), env.encReceipt(receipt)), Remove(PendingSth(n)), Remove(PendingEnq(n))]
  }

  function QuarantineOps(env: Env, files: Files, n: nat, reason: string): seq<FileOp>
    requires PendingSth(n) in files
  {
    [Create(DeadSth(n), files[PendingSth(n)].bytes), Create(DeadErr(n), env.encText(reason)),
     Remove(PendingSth(n)), Remove(PendingEnq(n))]
  }

  const ALIVE: nat := 4  // more operations than any program has

  function Enqueued(env: Env, files: Files, head: Head, now: I64, faults: Faults, budget: nat)
    : (Files, Result<bool, QueueError>)
  {
    match env.sizeOf(head)
    case None => (files, Err(Codec))
    case Some(n) =>
      if PendingSth(n) in files || ReceiptFile(n) in files then (files, Ok(false))
      else
        var (files', r) := Exec(files, EnqueueOps(env, n, head, now), faults, budget);
        (files', if r.Ok? then Ok(true) else Err(r.error))
  }

  function Marked(env: Env, files: Files, n: nat, receipt: Receipt, faults: Faults, budget: nat)
    : (Files, Result<(), QueueError>)
  {
    Exec(files, MarkOps(env, n, receipt), faults, budget)
  }

  function Quarantined(env: Env, files: Files, n: nat, reason: string, faults: Faults, budget: nat)
    : (Files, Result<(), QueueError>)
  {
    if PendingSth(n) !in files then (files, Err(Io))
    else Exec(files, QuarantineOps(env, files, n, reason), faults, budget)
  }

  // -------------------------------------------------------- no head is ever lost

  /** The head queued for size n is still in pending, is anchored, or is in dead. */
  predicate Held(files: Files, n: nat, bytes: Bytes) {
    || (PendingSth(n) in files && files[PendingSth(n)].bytes == bytes)
    || (ReceiptFile(n) in files && files[ReceiptFile(n)].complete)
    || (DeadSth(n) in files && files[DeadSth(n)] == Content(bytes, true))
  }

  /** Files that exist stay as they are. */
  ghost predicate Keeps(files: Files, files': Files) {
    forall f | f in files :: f in files' && files'[f] == files[f]
  }

  /** A program of removals of pending files, after n has safely arrived elsewhere. */
  lemma {:induction false} RemovalsHold(files: Files, ops: seq<FileOp>, faults: Faults, budget: nat, m: nat,
                                        bytes: Bytes)
    requires Held(files, m, bytes)
    requires forall op | op in ops :: op.Remove? && (op.file.PendingSth? || op.file.PendingEnq?)
    requires (exists op | op in ops :: op.file == PendingSth(m)) ==>
               (ReceiptFile(m) in files && files[ReceiptFile(m)].complete) ||
                 (DeadSth(m) in files && files[DeadSth(m)] == Content(bytes, true))
    ensures Held(Exec(files, ops, faults, budget).0, m, bytes)
    decreases |ops|
  {
    if ops != [] && budget > 0 {
      var f := ops[0].file;
      assert ops[0] in ops && forall op | op in ops[1..] :: op in ops;
      RemovalsHold(Removed(files, f, faults.removable(f)), ops[1..], faults, budget - 1, m, bytes);
    }
  }

  lemma EnqueueKeeps(env: Env, files: Files, head: Head, now: I64, faults: Faults, budget: nat)
    ensures Keeps(files, Enqueued(env, files, head, now, faults, budget).0)
    ensures Enqueued(env, files, head, now, faults, budget).1 == Ok(true) ==>
              env.sizeOf(head).Some? && Held(Enqueued(env, files, head, now, faults, budget).0,
                env.sizeOf(head).value, env.encHead(head))
  {
    if env.sizeOf(head).Some? {
      var n := env.sizeOf(head).value;
      var a, b := Create(PendingSth(n), env.encHead(head)), Create(PendingEnq(n), env.encTime(now));
      assert EnqueueOps(env, n, head, now) == [a] + [b];
      if budget > 0 {
        ExecCons(files, a, [b], faults, budget);
        var files1 := Created(files, a.file, a.bytes, faults.fate(a.file)).0;
        if budget > 1 {
          ExecCons(files1, b, [], faults, budget - 1);
          assert [b] + [] == [b];
        }
      }
    }
  }

  lemma MarkHolds(env: Env, files: Files, n: nat, receipt: Receipt, faults: Faults, budget: nat, m: nat, bytes: Bytes)
    requires Held(files, m, bytes)
    ensures Held(Marked(env, files, n, receipt, faults, budget).0, m, bytes)
  {
    var f, rest := ReceiptFile(n), [Remove(PendingSth(n)), Remove(PendingEnq(n))];
    var (files1, r) := Created(files, f, env.encReceipt(receipt), faults.fate(f));
    assert MarkOps(env, n, receipt) == [Create(f, env.encReceipt(receipt))] + rest;
    if budget > 0 {
      ExecCons(files, Create(f, env.encReceipt(receipt)), rest, faults, budget);
      if r.Ok? {
        RemovalsHold(files1, rest, faults, budget - 1, m, bytes);
      }
    }
  }

  lemma QuarantineHolds(env: Env, files: Files, n: nat, reason: string, faults: Faults, budget: nat, m: nat,
                        bytes: Bytes)
    requires Held(files, m, bytes)
    ensures Held(Quarantined(env, files, n, reason, faults, budget).0, m, bytes)
  {
    if PendingSth(n) in files && budget > 0 {
      var rest := [Remove(PendingSth(n)), Remove(PendingEnq(n))];
      var a, b := Create(DeadSth(n), files[PendingSth(n)].bytes), Create(DeadErr(n), env.encText(reason));
      assert QuarantineOps(env, files, n, reason) == [a] + ([b] + rest);
      ExecCons(files, a, [b] + rest, faults, budget);
      var (files1, r1) := Created(files, a.file, a.bytes, faults.fate(a.file));
      if r1.Ok? && budget > 1 {
        ExecCons(files1, b, rest, faults, budget - 1);
        var (files2, r2) := Created(files1, b.file, b.bytes, faults.fate(b.file));
        if r2.Ok? {
          RemovalsHold(files2, rest, faults, budget - 2, m, bytes);
        }
      }
    }
  }

  /** One queue operation, ended by a crash when its budget runs out. A drain is a
      sequence of `Mark` and `Quarantine` operations. */
  datatype Op =
    | Enqueue(head: Head, now: I64, faults: Faults, budget: nat)
    | Mark(n: nat, receipt: Receipt, faults: Faults, budget: nat)
    | Quarantine(n: nat, reason: string, faults: Faults, budget: nat)

  function Step(env: Env, files: Files, op: Op): Files {
    match op
    case Enqueue(head, now, faults, budget) => Enqueued(env, files, head, now, faults, budget).0
    case Mark(n, receipt, faults, budget) => Marked(env, files, n, receipt, faults, budget).0
    case Quarantine(n, reason, faults, budget) => Quarantined(env, files, n, reason, faults, budget).0
  }

  function Run(env: Env, files: Files, ops: seq<Op>): Files
    decreases |ops|
  {
    if ops == [] then files else Run(env, Step(env, files, ops[0]), ops[1..])
  }

  lemma {:induction false} HeldForever(env: Env, files: Files, ops: seq<Op>, m: nat, bytes: Bytes)
    requires Held(files, m, bytes)
    ensures Held(Run(env, files, ops), m, bytes)
    decreases |ops|
  {
    if ops != [] {
      match ops[0] {
        case Enqueue(head, now, faults, budget) => EnqueueKeeps(env, files, head, now, faults, budget);
        case Mark(n, receipt, faults, budget) => MarkHolds(env, files, n, receipt, faults, budget, m, bytes);
        case Quarantine(n, reason, faults, budget) => QuarantineHolds(env, files, n, reason, faults, budget, m, bytes);
      }
      HeldForever(env, Step(env, files, ops[0]), ops[1..], m, bytes);
    }
  }

  /** Once an enqueue has answered true, no later operations, faults or crashes lose
      the head. */
  lemma NoHeadIsLost(env: Env, files: Files, head: Head, now: I64, faults: Faults, budget: nat, later: seq<Op>)
    requires Enqueued(env, files, head, now, faults, budget).1 == Ok(true)
    ensures var files' := Enqueued(env, files, head, now, faults, budget).0;
            Held(Run(env, files', later), env.sizeOf(head).value, env.encHead(head))
  {
    EnqueueKeeps(env, files, head, now, faults, budget);
    HeldForever(env, Enqueued(env, files, head, now, faults, budget).0, later, env.sizeOf(head).value,
      env.encHead(head));
  }
}
