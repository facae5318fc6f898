/** Whole runs of the audit log: any mix of appends, head productions, failed and
    torn writes, crashes and restarts. */
module AuditRuns {
  import opened Prelude
  import opened Merkle
  import opened Disk
  import opened AuditStore
  import opened AuditLog
  import MerkleProofs

  /** The disk, the process (None while it is down), and the events whose append
      has been acknowledged. */
  datatype System = System(files: Files, log: Option<TreeState>, acked: map<nat, Bytes>)

  /** A crash in the middle of an operation is that operation with its remaining
      writes failing, then `Crash`. */
  datatype Op =
    | Append(raw: Bytes, fate: Fate, hashFate: Fate)
    | Produce(dir: Dir, timestamp: int, signatures: Option<seq<(string, string)>>, headFate: Fate)
    | Crash
    | Restart(sth: Option<nat>, cosigned: Option<nat>, unreadable: set<File>)

  /** A restart reads the directories as they are. */
  predicate Enabled(s: System, op: Op) {
    op.Restart? ==> IsNewest(s.files, Sth, op.sth) && IsNewest(s.files, Cosigned, op.cosigned)
  }

  function Step(env: Env, s: System, op: Op): System
    requires Enabled(s, op)
  {
    match op
    case Append(raw, fate, hashFate) =>
      if s.log.None? then s
      else
        var (files, st, r) := Appended(env, s.files, s.log.value, raw, fate, hashFate);
        System(files, Some(st), if r.Ok? then s.acked[r.value := raw] else s.acked)
    case Produce(dir, timestamp, signatures, fate) =>
      if s.log.None? then s
      else
        var (files, st, _) := Produced(env, s.files, s.log.value, dir, timestamp, signatures, fate);
        System(files, Some(st), s.acked)
    case Crash => s.(log := None)
    case Restart(sth, cosigned, unreadable) =>
      match Opened(env, s.files, sth, cosigned, unreadable)
      case Err(_) => s.(log := None)
      case Ok(st) => s.(log := Some(st))
  }

  const START: System := System(map[], None, map[])

  /** A run: consecutive states, one operation apart. */
  ghost predicate IsRun(env: Env, run: seq<System>, ops: seq<Op>) {
    && |run| == |ops| + 1
    && run[0] == START
    && forall i | 0 <= i < |ops| :: Enabled(run[i], ops[i]) && run[i + 1] == Step(env, run[i], ops[i])
  }

  // ------------------------------------------------------------- the invariant

  /** The head file of size n is torn, or is a head of the first n stored leaves. */
  ghost predicate GoodHead(env: Env, files: Files, dir: Dir, n: nat)
    requires HeadFile(dir, n) in files
  {
    var stored := Stored(files);
    n <= |stored| &&
    match env.decHead(dir, files[HeadFile(dir, n)])
    case None => true
    case Some(head) =>
      var body := env.decBody(head.bodyCbor);
      body.Some? && body.value.treeSize == n && body.value.root == RootOrZero(env, Hashes(env, stored[..n]))
  }

  ghost predicate Inv(env: Env, s: System) {
    var stored := Stored(s.files);
    && (forall i: nat :: Leaf(i) in s.files <==> i < |stored|)
    && (s.log.Some? ==>
          var tree := s.log.value.tree;
          |tree| <= |stored| <= |tree| + 1 && tree == Hashes(env, stored[..|tree|]))
    && (forall dir, n: nat :: HeadFile(dir, n) in s.files ==> GoodHead(env, s.files, dir, n))
    && (forall i | i in s.acked ::
          i < |stored| && stored[i] == s.acked[i] && (s.log.Some? ==> i < |s.log.value.tree|))
  }

  /** What a write that is not a leaf leaves alone. */
  lemma {:induction false} StoredSame(before: Files, after: Files, i: nat)
    requires forall k: nat :: Leaf(k) in before <==> Leaf(k) in after
    requires forall k: nat | Leaf(k) in before :: before[Leaf(k)] == after[Leaf(k)]
    ensures StoredFrom(before, i) == StoredFrom(after, i)
    decreases LeavesFrom(before, i)
  {
    if Leaf(i) in before {
      assert Leaf(i) in LeavesFrom(before, i) && Leaf(i) !in LeavesFrom(before, i + 1);
      StoredSame(before, after, i + 1);
    }
  }

  /** A store holding exactly the leaves `d` reads back as `d`. */
  lemma StoredIs(files: Files, d: seq<Bytes>)
    requires forall k: nat :: Leaf(k) in files <==> k < |d|
    requires forall k: nat | k < |d| :: files[Leaf(k)] == d[k]
    ensures Stored(files) == d
  {
    var s := Stored(files);
    assert Leaf(|s|) !in files && Leaf(|d|) !in files;
  }

  lemma HashesPrefix(env: Env, d: seq<Bytes>, n: nat)
    requires n <= |d|
    ensures Hashes(env, d)[..n] == Hashes(env, d[..n])
  {
  }

  /** Growing the stored leaves at the end leaves every recorded head good. */
  lemma HeadsStayGood(env: Env, before: Files, after: Files)
    requires Stored(before) <= Stored(after)
    requires forall dir, n: nat :: HeadFile(dir, n) in after ==>
             HeadFile(dir, n) in before && after[HeadFile(dir, n)] == before[HeadFile(dir, n)]
    requires forall dir, n: nat :: HeadFile(dir, n) in before ==> GoodHead(env, before, dir, n)
    ensures forall dir, n: nat :: HeadFile(dir, n) in after ==> GoodHead(env, after, dir, n)
  {
    forall dir, n: nat | HeadFile(dir, n) in after
      ensures GoodHead(env, after, dir, n)
    {
      assert GoodHead(env, before, dir, n);
      assert Stored(before)[..n] == Stored(after)[..n];
    }
  }

  // -------------------------------------------------------- every step keeps it

  /** One leaf file appears at the end, or nothing changes. */
  lemma PutLeafStored(env: Env, files: Files, index: nat, raw: Bytes, leafHash: Digest, fate: Fate, hashFate: Fate)
    requires forall i: nat :: Leaf(i) in files <==> i < |Stored(files)|
    requires |Stored(files)| <= index + 1 && index <= |Stored(files)|
    ensures var (after, r) := PutLeaf(env, files, index, raw, leafHash, fate, hashFate);
            && (forall i: nat :: Leaf(i) in after <==> i < |Stored(after)|)
            && Stored(files) <= Stored(after) && |Stored(after)| <= index + 1
            && (r.Ok? ==> |Stored(files)| == index && Stored(after) == Stored(files) + [raw])
            && (forall dir, n: nat :: HeadFile(dir, n) in after ==>
                  HeadFile(dir, n) in files && after[HeadFile(dir, n)] == files[HeadFile(dir, n)])
  {
    var (mid, r1) := CreateFile(files, Leaf(index), raw, fate);
    var (after, r) := PutLeaf(env, files, index, raw, leafHash, fate, hashFate);
    if mid == files {
      StoredIs(after, Stored(files));
    } else {
      StoredIs(after, Stored(files) + [mid[Leaf(index)]]);
    }
  }

  lemma AppendKeeps(env: Env, s: System, op: Op)
    requires Inv(env, s) && op.Append? && s.log.Some?
    ensures Inv(env, Step(env, s, op))
  {
    var st := s.log.value;
    var index := |st.tree|;
    var (files, r) := PutLeaf(env, s.files, index, op.raw, env.leafHash(op.raw), op.fate, op.hashFate);
    var before, after := Stored(s.files), Stored(files);
    PutLeafStored(env, s.files, index, op.raw, env.leafHash(op.raw), op.fate, op.hashFate);
    HeadsStayGood(env, s.files, files);
    assert before[..index] == after[..index];
    if r.Ok? {
      assert after[..index + 1] == before[..index] + [op.raw];
    }
  }

  lemma ProduceKeeps(env: Env, s: System, op: Op)
    requires GoodCodecs(env) && Inv(env, s) && op.Produce? && s.log.Some? && op.signatures.Some?
    ensures Inv(env, Step(env, s, op))
  {
    var tree := s.log.value.tree;
    var size, body := |tree|, CurrentBody(env, tree, op.timestamp);
    var head := Head(env.encBody(body), op.signatures.value);
    var file := HeadFile(op.dir, size);
    var (files, r) := PutHead(env, s.files, op.dir, head, op.headFate);
    assert env.decBody(head.bodyCbor) == Some(body);
    StoredSame(s.files, files, 0);
    forall dir, n: nat | HeadFile(dir, n) in files
      ensures GoodHead(env, files, dir, n)
    {
      if HeadFile(dir, n) in s.files {
        assert GoodHead(env, s.files, dir, n);
      } else {
        var bytes := env.encHead(op.dir, head);
        assert files[file] == bytes || exists k: nat :: k < |bytes| && files[file] == bytes[..k] by {
          if op.headFate.Torn? {
            var k := Min(op.headFate.written, |bytes|);
            assert files[file] == bytes[..k];
            assert k == |bytes| ==> bytes[..k] == bytes;
          }
        }
      }
    }
  }

  lemma RestartKeeps(env: Env, s: System, op: Op)
    requires Inv(env, s) && op.Restart? && Enabled(s, op)
    ensures Inv(env, Step(env, s, op))
  {
    var stored := Stored(s.files);
    assert stored[..|stored|] == stored;
  }

  lemma StepKeeps(env: Env, s: System, op: Op)
    requires GoodCodecs(env) && Inv(env, s) && Enabled(s, op)
    ensures Inv(env, Step(env, s, op))
  {
    match op
    case Append(_, _, _) =>
      if s.log.Some? {
        AppendKeeps(env, s, op);
      }
    case Produce(_, _, _, _) =>
      if s.log.Some? && op.signatures.Some? {
        ProduceKeeps(env, s, op);
      }
    case Crash =>
    case Restart(_, _, _) => RestartKeeps(env, s, op);
  }

  lemma {:induction false} RunKeeps(env: Env, run: seq<System>, ops: seq<Op>, i: nat)
    requires GoodCodecs(env) && IsRun(env, run, ops) && i < |run|
    ensures Inv(env, run[i])
  {
    if i == 0 {
      StoredIs(START.files, []);
    } else {
      RunKeeps(env, run, ops, i - 1);
      StepKeeps(env, run[i - 1], ops[i - 1]);
    }
  }

  // -------------------------------------------------------------- append-only

  /** The log's size: the tree while up, the stored leaves while down. */
  function LogSize(s: System): nat {
    if s.log.Some? then |s.log.value.tree| else |Stored(s.files)|
  }

  /** What a step leaves in place. */
  ghost predicate Extends(s: System, t: System) {
    && WriteOnce(s.files, t.files)
    && Stored(s.files) <= Stored(t.files)
    && LogSize(s) <= LogSize(t)
    && forall i | i in s.acked :: i in t.acked && t.acked[i] == s.acked[i]
  }

  lemma AppendExtends(env: Env, s: System, op: Op)
    requires Inv(env, s) && op.Append? && s.log.Some?
    ensures Extends(s, Step(env, s, op))
  {
    PutLeafStored(env, s.files, |s.log.value.tree|, op.raw, env.leafHash(op.raw), op.fate, op.hashFate);
  }

  lemma ProduceExtends(env: Env, s: System, op: Op)
    requires op.Produce? && s.log.Some?
    ensures Extends(s, Step(env, s, op))
  {
    StoredSame(s.files, Step(env, s, op).files, 0);
  }

  lemma StepExtends(env: Env, s: System, op: Op)
    requires Inv(env, s) && Enabled(s, op)
    ensures Extends(s, Step(env, s, op))
  {
    if op.Append? && s.log.Some? {
      AppendExtends(env, s, op);
    } else if op.Produce? && s.log.Some? {
      ProduceExtends(env, s, op);
    }
  }

  lemma NextExtends(env: Env, run: seq<System>, ops: seq<Op>, i: nat)
    requires GoodCodecs(env) && IsRun(env, run, ops) && i < |ops|
    ensures Extends(run[i], run[i + 1])
  {
    RunKeeps(env, run, ops, i);
    StepExtends(env, run[i], ops[i]);
  }

  lemma ExtendsTransitive(s: System, t: System, u: System)
    requires Extends(s, t) && Extends(t, u)
    ensures Extends(s, u)
  {
  }

  /** Over any stretch of any run: no file changes, stored leaves only extend, the
      log never shrinks and no acknowledgement is taken back. */
  lemma {:induction false} AppendOnly(env: Env, run: seq<System>, ops: seq<Op>, i: nat, j: nat)
    requires GoodCodecs(env) && IsRun(env, run, ops) && i <= j < |run|
    ensures Extends(run[i], run[j])
    decreases j - i
  {
    if i < j {
      NextExtends(env, run, ops, i);
      AppendOnly(env, run, ops, i + 1, j);
      ExtendsTransitive(run[i], run[i + 1], run[j]);
    }
  }

  /** An acknowledged index keeps its event for the rest of the run, on disk and,
      while the process is up, in the tree. */
  lemma AckedForever(env: Env, run: seq<System>, ops: seq<Op>, i: nat, j: nat, k: nat)
    requires GoodCodecs(env) && IsRun(env, run, ops) && i <= j < |run| && k in run[i].acked
    ensures Leaf(k) in run[j].files && run[j].files[Leaf(k)] == run[i].acked[k]
    ensures run[j].log.Some? ==>
              k < |run[j].log.value.tree| && run[j].log.value.tree[k] == env.leafHash(run[i].acked[k])
  {
    AppendOnly(env, run, ops, i, j);
    RunKeeps(env, run, ops, j);
    assert k in run[j].acked && run[j].acked[k] == run[i].acked[k];
  }

  /** The size of the head a step publishes in `dir`, if it publishes one. */
  function Published(env: Env, s: System, op: Op, dir: Dir): Option<nat> {
    if op.Produce? && op.dir == dir && s.log.Some? &&
       Produced(env, s.files, s.log.value, dir, op.timestamp, op.signatures, op.headFate).2.Ok?
    then Some(|s.log.value.tree|) else None
  }

  /** Later heads of a directory are strictly larger, whatever happens in between:
      in particular no tree size gets two. */
  lemma PublishedSizesIncrease(env: Env, run: seq<System>, ops: seq<Op>, dir: Dir, i: nat, j: nat)
    requires GoodCodecs(env) && IsRun(env, run, ops) && i < j < |ops|
    requires Published(env, run[i], ops[i], dir).Some? && Published(env, run[j], ops[j], dir).Some?
    ensures Published(env, run[i], ops[i], dir).value < Published(env, run[j], ops[j], dir).value
  {
    var n := |run[i].log.value.tree|;
    assert HeadFile(dir, n) in run[i + 1].files;
    AppendOnly(env, run, ops, i + 1, j);
  }

  // -------------------------------------------------------------- recorded heads

  /** The body of an intact recorded head. */
  function RecordedBody(env: Env, files: Files, dir: Dir, n: nat): Option<SthBody> {
    if HeadFile(dir, n) !in files then None
    else
      match env.decHead(dir, files[HeadFile(dir, n)])
      case None => None
      case Some(head) => env.decBody(head.bodyCbor)
  }

  /** Any two intact heads on disk, single-signer or co-signed, verify as consistent
      with a proof computed from the stored leaves. */
  lemma RecordedHeadsConsistent(env: Env, run: seq<System>, ops: seq<Op>, i: nat, dir: Dir, m: nat, dir': Dir, n: nat)
    requires GoodCodecs(env) && IsRun(env, run, ops) && i < |run| && 1 <= m <= n
    requires RecordedBody(env, run[i].files, dir, m).Some? && RecordedBody(env, run[i].files, dir', n).Some?
    ensures n <= |Stored(run[i].files)|
    ensures var older, newer := RecordedBody(env, run[i].files, dir, m).value,
            RecordedBody(env, run[i].files, dir', n).value;
            && older.treeSize == m && newer.treeSize == n
            && ConsistencyAccepts(env.nodeHash, m, n, older.root, newer.root,
                                  Proof(env.nodeHash, m, Hashes(env, Stored(run[i].files)[..n])))
  {
    var files := run[i].files;
    RunKeeps(env, run, ops, i);
    assert GoodHead(env, files, dir, m) && GoodHead(env, files, dir', n);
    var d := Stored(files)[..n];
    assert d[..m] == Stored(files)[..m];
    HashesPrefix(env, d, m);
    MerkleProofs.ConsistencyComplete(env.nodeHash, m, Hashes(env, d));
  }

  // -------------------------------------------------------------------- resuming

  /** The newest head file of a directory decodes (or there is none). */
  predicate NewestIntact(env: Env, files: Files, dir: Dir, newest: Option<nat>)
    requires newest.Some? ==> HeadFile(dir, newest.value) in files
  {
    newest.Some? ==> env.decHead(dir, files[HeadFile(dir, newest.value)]).Some?
  }

  /** Every stored leaf, and the newest head of each directory, can be read. */
  ghost predicate CanRead(files: Files, sth: Option<nat>, cosigned: Option<nat>, unreadable: set<File>) {
    && (forall k | 0 <= k < |Stored(files)| :: Leaf(k) !in unreadable)
    && (sth.Some? ==> HeadFile(Sth, sth.value) !in unreadable)
    && (cosigned.Some? ==> HeadFile(Cosigned, cosigned.value) !in unreadable)
  }

  /** A log never refuses its own history: a restart succeeds exactly when the files can be
      read and the last head write of each directory was not torn, with every leaf and no
      other in the tree. */
  lemma ResumeSucceedsIff(env: Env, run: seq<System>, ops: seq<Op>, i: nat, sth: Option<nat>, cosigned: Option<nat>,
                          unreadable: set<File>)
    requires GoodCodecs(env) && IsRun(env, run, ops) && i < |run|
    requires IsNewest(run[i].files, Sth, sth) && IsNewest(run[i].files, Cosigned, cosigned)
    ensures Opened(env, run[i].files, sth, cosigned, unreadable).Ok? <==>
            && CanRead(run[i].files, sth, cosigned, unreadable)
            && NewestIntact(env, run[i].files, Sth, sth) && NewestIntact(env, run[i].files, Cosigned, cosigned)
    ensures Opened(env, run[i].files, sth, cosigned, unreadable).Ok? ==>
              Opened(env, run[i].files, sth, cosigned, unreadable).value.tree == Hashes(env, Stored(run[i].files))
  {
    var files := run[i].files;
    RunKeeps(env, run, ops, i);
    if sth.Some? && NewestIntact(env, files, Sth, sth) {
      assert GoodHead(env, files, Sth, sth.value);
      HashesPrefix(env, Stored(files), sth.value);
    }
  }

  /** Over any store, a resume is refused as diverging exactly when the newest head is of
      more leaves than are stored, or has another root than the leaves it covers; and for
      its body exactly when that does not decode. */
  lemma ResumeRefusedIff(env: Env, files: Files, sth: Option<nat>, cosigned: Option<nat>, unreadable: set<File>)
    requires IsNewest(files, Sth, sth) && IsNewest(files, Cosigned, cosigned)
    requires CanRead(files, sth, cosigned, unreadable) && NewestIntact(env, files, Sth, sth)
    ensures var r := Opened(env, files, sth, cosigned, unreadable);
            && (r == Err(Body) <==> sth.Some? && RecordedBody(env, files, Sth, sth.value).None?)
            && (r == Err(Resume) <==>
                && sth.Some? && RecordedBody(env, files, Sth, sth.value).Some?
                && var body := RecordedBody(env, files, Sth, sth.value).value;
                   || |Stored(files)| < body.treeSize
                   || RootOrZero(env, Hashes(env, Stored(files)[..body.treeSize])) != body.root)
  {
    if sth.Some? && RecordedBody(env, files, Sth, sth.value).Some? {
      var n := RecordedBody(env, files, Sth, sth.value).value.treeSize;
      if n <= |Stored(files)| {
        HashesPrefix(env, Stored(files), n);
      }
    }
  }

  datatype LeafCollision = LeafCollision(a: Bytes, b: Bytes)

  /** The first position where two lists differ and their leaf hashes do not. */
  function FindLeafCollision(env: Env, a: seq<Bytes>, b: seq<Bytes>): (c: Option<LeafCollision>)
    requires |a| == |b|
    ensures c.Some? ==> c.value.a != c.value.b && env.leafHash(c.value.a) == env.leafHash(c.value.b)
  {
    if a == [] then None
    else if a[0] != b[0] && env.leafHash(a[0]) == env.leafHash(b[0]) then Some(LeafCollision(a[0], b[0]))
    else FindLeafCollision(env, a[1..], b[1..])
  }

  lemma {:induction false} LeafHashesBind(env: Env, a: seq<Bytes>, b: seq<Bytes>)
    requires |a| == |b| && FindLeafCollision(env, a, b).None?
    requires forall i | 0 <= i < |a| :: env.leafHash(a[i]) == env.leafHash(b[i])
    ensures a == b
  {
    if a != [] {
      LeafHashesBind(env, a[1..], b[1..]);
      assert a == [a[0]] + a[1..] && b == [b[0]] + b[1..];
    }
  }

  /** If the newest head of a (possibly altered) store is a head of the leaves `d`,
      resuming succeeds only over those very leaves, unless a hash collides. */
  lemma ResumeDetectsDivergence(env: Env, files: Files, sth: Option<nat>, cosigned: Option<nat>,
                                unreadable: set<File>, d: seq<Bytes>)
    requires IsNewest(files, Sth, sth) && IsNewest(files, Cosigned, cosigned) && sth.Some? && |d| >= 1
    requires var body := RecordedBody(env, files, Sth, sth.value);
             body.Some? && body.value.treeSize == |d| && body.value.root == RootOrZero(env, Hashes(env, d))
    requires Opened(env, files, sth, cosigned, unreadable).Ok?
    ensures |Stored(files)| >= |d|
    ensures var e := Stored(files)[..|d|];
            || e == d
            || MerkleProofs.TreeCollision(env.nodeHash, Hashes(env, e), Hashes(env, d), 0, |d|).Some?
            || FindLeafCollision(env, e, d).Some?
  {
    var e := Stored(files)[..|d|];
    HashesPrefix(env, Stored(files), |d|);
    MerkleProofs.RootBindsLeaves(env.nodeHash, Hashes(env, e), Hashes(env, d));
    if Hashes(env, e) == Hashes(env, d) && FindLeafCollision(env, e, d).None? {
      forall i | 0 <= i < |d|
        ensures env.leafHash(e[i]) == env.leafHash(d[i])
      {
        assert Hashes(env, e)[i] == Hashes(env, d)[i];
      }
      LeafHashesBind(env, e, d);
    }
  }
}
