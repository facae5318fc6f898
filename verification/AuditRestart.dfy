/** What a torn head file does to the log: the process that survives it goes on and
    heals it with the next head, and the process that dies over it never starts again. */
module AuditRestart {
  import opened Prelude
  import opened Merkle
  import opened Disk
  import opened AuditStore
  import opened AuditLog
  import opened AuditRuns

  // ------------------------------------------------------------------ down for good

  lemma StaysDown(env: Env, s: System, op: Op, dir: Dir, newest: Option<nat>)
    requires s.log.None? && Enabled(s, op) && IsNewest(s.files, dir, newest) && !NewestIntact(env, s.files, dir, newest)
    ensures Step(env, s, op).log.None? && Step(env, s, op).files == s.files
  {
    if op.Restart? {
      NewestUnique(s.files, dir, newest, if dir.Sth? then op.sth else op.cosigned);
    }
  }

  /** Once the process is down over a newest head that is torn, no restart ever succeeds
      and nothing is written again, whatever is tried. */
  lemma {:induction false} DownForever(env: Env, run: seq<System>, ops: seq<Op>, i: nat, j: nat, dir: Dir,
                                       newest: Option<nat>)
    requires IsRun(env, run, ops) && i <= j < |run| && run[i].log.None?
    requires IsNewest(run[i].files, dir, newest) && !NewestIntact(env, run[i].files, dir, newest)
    ensures run[j].log.None? && run[j].files == run[i].files
    decreases j - i
  {
    if i < j {
      StaysDown(env, run[i], ops[i], dir, newest);
      DownForever(env, run, ops, i + 1, j, dir, newest);
    }
  }

  // ---------------------------------------------------------------- healed while up

  /** No head is larger than the log. */
  ghost predicate HeadsWithin(s: System) {
    forall dir, n: nat | HeadFile(dir, n) in s.files :: n <= LogSize(s)
  }

  lemma StepHeadsWithin(env: Env, s: System, op: Op)
    requires GoodCodecs(env) && Inv(env, s) && Enabled(s, op) && HeadsWithin(s)
    ensures HeadsWithin(Step(env, s, op))
  {
    var t := Step(env, s, op);
    StepExtends(env, s, op);
    forall dir, n: nat | HeadFile(dir, n) in t.files
      ensures n <= LogSize(t)
    {
      if HeadFile(dir, n) !in s.files {
        assert op.Produce? && n == LogSize(s);
      }
    }
  }

  lemma {:induction false} RunHeadsWithin(env: Env, run: seq<System>, ops: seq<Op>, i: nat)
    requires GoodCodecs(env) && IsRun(env, run, ops) && i < |run|
    ensures HeadsWithin(run[i])
  {
    if i > 0 {
      RunHeadsWithin(env, run, ops, i - 1);
      RunKeeps(env, run, ops, i - 1);
      StepHeadsWithin(env, run[i - 1], ops[i - 1]);
    }
  }

  /** A head that is published is the newest of its kind and whole: whatever was torn
      before no longer stands in the way of a restart. */
  lemma PublishingHeals(env: Env, run: seq<System>, ops: seq<Op>, i: nat, dir: Dir)
    requires GoodCodecs(env) && IsRun(env, run, ops) && i < |ops| && Published(env, run[i], ops[i], dir).Some?
    ensures IsNewest(run[i + 1].files, dir, Published(env, run[i], ops[i], dir))
    ensures NewestIntact(env, run[i + 1].files, dir, Published(env, run[i], ops[i], dir))
  {
    RunHeadsWithin(env, run, ops, i);
    var n, files := |run[i].log.value.tree|, run[i + 1].files;
    forall f | f in files && f.HeadFile? && f.dir == dir
      ensures f.treeSize <= n
    {
      assert f == HeadFile(dir, f.treeSize);
    }
  }

  /** While the head of the current size is torn no head can be published, until an
      append moves the log on. */
  lemma TornSizeRefused(env: Env, s: System, op: Op)
    requires GoodCodecs(env) && op.Produce? && s.log.Some? && HeadFile(op.dir, |s.log.value.tree|) in s.files
    ensures Published(env, s, op, op.dir).None? && Step(env, s, op).files == s.files
  {
    if op.signatures.Some? {
      var body := CurrentBody(env, s.log.value.tree, op.timestamp);
      assert env.decBody(env.encBody(body)) == Some(body);
    }
  }

  // ---------------------------------------------------------------- both do happen

  /** A run in which the first head tears and the process dies: from its last state
      on, the log is down for good. */
  lemma TornHeadRun(env: Env, timestamp: int, signatures: seq<(string, string)>)
    returns (ops: seq<Op>, run: seq<System>)
    requires GoodCodecs(env) && env.decHead(Sth, []).None?
    ensures ops == [Restart(None, None, {}), Produce(Sth, timestamp, Some(signatures), Torn(0)), Crash]
    ensures IsRun(env, run, ops) && run[3].log.None?
    ensures IsNewest(run[3].files, Sth, Some(0)) && !NewestIntact(env, run[3].files, Sth, Some(0))
  {
    ops := [Restart(None, None, {}), Produce(Sth, timestamp, Some(signatures), Torn(0)), Crash];
    var s1 := TornHead(env, timestamp, signatures);
    var s2 := Step(env, s1, ops[1]);
    run := [START, s1, s2, Step(env, s2, ops[2])];
  }

  /** The first two steps: an empty log is opened and its first head tears. */
  lemma TornHead(env: Env, timestamp: int, signatures: seq<(string, string)>) returns (s1: System)
    requires GoodCodecs(env) && env.decHead(Sth, []).None?
    ensures Enabled(START, Restart(None, None, {})) && s1 == Step(env, START, Restart(None, None, {}))
    ensures s1 == System(map[], Some(TreeState([], map[])), map[])
    ensures Step(env, s1, Produce(Sth, timestamp, Some(signatures), Torn(0))) ==
            s1.(files := map[HeadFile(Sth, 0) := []])
  {
    s1 := Step(env, START, Restart(None, None, {}));
    assert Stored(START.files) == [] && Hashes(env, []) == [];
    var body := CurrentBody(env, [], timestamp);
    assert env.decBody(env.encBody(body)) == Some(body);
    var bytes := env.encHead(Sth, Head(env.encBody(body), signatures));
    assert bytes[..0] == [];
  }

  /** The same torn head in a process that lives on: an append and the next head, and a
      restart succeeds. */
  lemma HealedRun(env: Env, timestamp: int, signatures: seq<(string, string)>, raw: Bytes)
    returns (ops: seq<Op>, run: seq<System>)
    requires GoodCodecs(env) && env.decHead(Sth, []).None?
    ensures ops == [Restart(None, None, {}), Produce(Sth, timestamp, Some(signatures), Torn(0)),
                    Append(raw, Done, Done), Produce(Sth, timestamp, Some(signatures), Done)]
    ensures IsRun(env, run, ops) && HeadFile(Sth, 0) in run[4].files &&
            env.decHead(Sth, run[4].files[HeadFile(Sth, 0)]).None?
    ensures IsNewest(run[4].files, Sth, Some(1)) && IsNewest(run[4].files, Cosigned, None)
    ensures Opened(env, run[4].files, Some(1), None, {}).Ok?
  {
    ops := [Restart(None, None, {}), Produce(Sth, timestamp, Some(signatures), Torn(0)),
            Append(raw, Done, Done), Produce(Sth, timestamp, Some(signatures), Done)];
    var s1 := TornHead(env, timestamp, signatures);
    var s2 := Step(env, s1, ops[1]);
    var s3 := Step(env, s2, ops[2]);
    assert s3.files == map[HeadFile(Sth, 0) := [], Leaf(0) := raw, LeafHash(0) := env.digestBytes(env.leafHash(raw))];
    var s4 := Step(env, s3, ops[3]);
    run := [START, s1, s2, s3, s4];
    var body := CurrentBody(env, s3.log.value.tree, timestamp);
    assert env.decBody(env.encBody(body)) == Some(body);
    assert Published(env, run[3], ops[3], Sth) == Some(1);
    PublishingHeals(env, run, ops, 3, Sth);
    ResumeSucceedsIff(env, run, ops, 4, Some(1), None, {});
  }
}
