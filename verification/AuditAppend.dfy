/** What becomes of an append that fails: a leaf that landed without being acknowledged
    stalls the log until a restart, and the restart adopts it. */
module AuditAppend {
  import opened Prelude
  import opened Merkle
  import opened Disk
  import opened AuditStore
  import opened AuditLog
  import opened AuditRuns

  // ------------------------------------------------------------ when an append succeeds

  /** A leaf hash is written only after its leaf. */
  ghost predicate HashesFollow(files: Files) {
    forall i: nat | LeafHash(i) in files :: Leaf(i) in files
  }

  lemma StepHashesFollow(env: Env, s: System, op: Op)
    requires Enabled(s, op) && HashesFollow(s.files)
    ensures HashesFollow(Step(env, s, op).files)
  {
  }

  lemma {:induction false} RunHashesFollow(env: Env, run: seq<System>, ops: seq<Op>, i: nat)
    requires IsRun(env, run, ops) && i < |run|
    ensures HashesFollow(run[i].files)
  {
    if i > 0 {
      RunHashesFollow(env, run, ops, i - 1);
      StepHashesFollow(env, run[i - 1], ops[i - 1]);
    }
  }

  /** The process is up with a stored leaf beyond its tree. */
  predicate Stalled(s: System) {
    s.log.Some? && |Stored(s.files)| > |s.log.value.tree|
  }

  predicate Acknowledges(env: Env, s: System, op: Op) {
    op.Append? && s.log.Some? && Appended(env, s.files, s.log.value, op.raw, op.fate, op.hashFate).2.Ok?
  }

  /** In any state of any run, an append to an open log is acknowledged exactly when both
      its files can be written and the log is not stalled. */
  lemma AppendSucceedsIff(env: Env, run: seq<System>, ops: seq<Op>, i: nat, op: Op)
    requires GoodCodecs(env) && IsRun(env, run, ops) && i < |run| && op.Append? && run[i].log.Some?
    ensures Acknowledges(env, run[i], op) <==> op.fate.Done? && op.hashFate.Done? && !Stalled(run[i])
  {
    RunKeeps(env, run, ops, i);
    RunHashesFollow(env, run, ops, i);
    assert Leaf(|run[i].log.value.tree|) in run[i].files <==> Stalled(run[i]);
  }

  /** One that fails stalls the log exactly when its leaf file was begun. */
  lemma AppendStallsIff(env: Env, run: seq<System>, ops: seq<Op>, i: nat, op: Op)
    requires GoodCodecs(env) && IsRun(env, run, ops) && i < |run| && op.Append? && run[i].log.Some? && !Stalled(run[i])
    ensures Stalled(Step(env, run[i], op)) <==> !op.fate.OpenFails? && !(op.fate.Done? && op.hashFate.Done?)
    ensures !op.fate.OpenFails? ==>
              var k := |run[i].log.value.tree|;
              Leaf(k) in Step(env, run[i], op).files && Step(env, run[i], op).files[Leaf(k)] == Landed(op.raw, op.fate)
  {
    var s, k := run[i], |run[i].log.value.tree|;
    RunKeeps(env, run, ops, i);
    AppendSucceedsIff(env, run, ops, i, op);
    PutLeafStored(env, s.files, k, op.raw, env.leafHash(op.raw), op.fate, op.hashFate);
    var files := PutLeaf(env, s.files, k, op.raw, env.leafHash(op.raw), op.fate, op.hashFate).0;
    assert Leaf(k) in files <==> !op.fate.OpenFails?;
  }

  // ---------------------------------------------------------------------- while stalled

  lemma StaysStalled(env: Env, s: System, op: Op)
    requires Inv(env, s) && Stalled(s) && !op.Crash? && !op.Restart?
    ensures var t := Step(env, s, op);
            Stalled(t) && t.log.value.tree == s.log.value.tree && Stored(t.files) == Stored(s.files) &&
              t.acked == s.acked
  {
    var k := |s.log.value.tree|;
    assert Leaf(k) in s.files;
    StoredSame(s.files, Step(env, s, op).files, 0);
  }

  /** Until the process goes down, a stalled log takes no append: tree, stored leaves and
      acknowledgements stay as they are. */
  lemma {:induction false} StalledUntilDown(env: Env, run: seq<System>, ops: seq<Op>, i: nat, j: nat)
    requires GoodCodecs(env) && IsRun(env, run, ops) && i <= j < |run| && Stalled(run[i])
    requires forall k | i <= k < j :: !ops[k].Crash? && !ops[k].Restart?
    ensures Stalled(run[j]) && run[j].log.value.tree == run[i].log.value.tree
    ensures Stored(run[j].files) == Stored(run[i].files) && run[j].acked == run[i].acked
    decreases j - i
  {
    if i < j {
      RunKeeps(env, run, ops, i);
      StaysStalled(env, run[i], ops[i]);
      StalledUntilDown(env, run, ops, i + 1, j);
    }
  }

  /** A head covers exactly the leaves the store reflects unless the log is stalled, and
      then all but the last. */
  lemma HeadCoversStoreIff(env: Env, run: seq<System>, ops: seq<Op>, i: nat, dir: Dir)
    requires GoodCodecs(env) && IsRun(env, run, ops) && i < |ops| && Published(env, run[i], ops[i], dir).Some?
    ensures var n, stored := Published(env, run[i], ops[i], dir).value, |Stored(run[i + 1].files)|;
            n == if Stalled(run[i]) then stored - 1 else stored
  {
    RunKeeps(env, run, ops, i);
    StoredSame(run[i].files, run[i + 1].files, 0);
  }

  // ----------------------------------------------------------------------- the restart

  lemma RestartTree(env: Env, s: System, op: Op)
    requires op.Restart? && Enabled(s, op) && Step(env, s, op).log.Some?
    ensures Step(env, s, op).files == s.files && Step(env, s, op).log.value.tree == Hashes(env, Stored(s.files))
  {
  }

  /** Whatever landed of a leaf, torn or whole, acknowledged or not, is in the tree after
      every later restart that succeeds. */
  lemma RestartAdopts(env: Env, run: seq<System>, ops: seq<Op>, i: nat, j: nat)
    requires GoodCodecs(env) && IsRun(env, run, ops) && i < j < |ops| && ops[j].Restart? && run[j + 1].log.Some?
    requires ops[i].Append? && run[i].log.Some? && !Stalled(run[i]) && !ops[i].fate.OpenFails?
    ensures var tree, k := run[j + 1].log.value.tree, |run[i].log.value.tree|;
            && !Stalled(run[j + 1]) && k < |tree| && tree[k] == env.leafHash(Landed(ops[i].raw, ops[i].fate))
  {
    var k := |run[i].log.value.tree|;
    AppendStallsIff(env, run, ops, i, ops[i]);
    AppendOnly(env, run, ops, i + 1, j);
    RunKeeps(env, run, ops, j);
    assert Leaf(k) in run[j].files && run[j].files[Leaf(k)] == Landed(ops[i].raw, ops[i].fate);
    assert k < |Stored(run[j].files)|;
    RestartTree(env, run[j], ops[j]);
  }

  /** A run that does so: the first append tears, is not acknowledged, and is leaf 0 after
      the restart. */
  lemma TornLeafRun(env: Env, raw: Bytes, written: nat) returns (ops: seq<Op>, run: seq<System>)
    requires GoodCodecs(env)
    ensures ops == [Restart(None, None, {}), Append(raw, Torn(written), Done), Restart(None, None, {})]
    ensures IsRun(env, run, ops) && Stalled(run[2]) && run[3].acked == map[]
    ensures run[3].log.Some? && run[3].log.value.tree == [env.leafHash(Landed(raw, Torn(written)))]
  {
    ops := [Restart(None, None, {}), Append(raw, Torn(written), Done), Restart(None, None, {})];
    var s1 := Step(env, START, ops[0]);
    assert Stored(START.files) == [] && Hashes(env, []) == [];
    assert s1 == System(map[], Some(TreeState([], map[])), map[]);
    var s2 := Step(env, s1, ops[1]);
    assert s2 == s1.(files := map[Leaf(0) := Landed(raw, Torn(written))]);
    StoredIs(s2.files, [Landed(raw, Torn(written))]);
    run := [START, s1, s2, Step(env, s2, ops[2])];
  }
}
