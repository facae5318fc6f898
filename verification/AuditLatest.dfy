/** What an open log holds as its latest heads, over whole runs: each kind in its own
    slot, the head last published or, since a restart, the newest recorded. */
module AuditLatest {
  import opened Prelude
  import opened Merkle
  import opened Disk
  import opened AuditStore
  import opened AuditLog
  import opened AuditRuns

  /** The size of the latest head of a kind after i operations: the newest recorded one
      after a restart, the published one after a publication, none while down, and else
      what it was. */
  function LatestSize(env: Env, run: seq<System>, ops: seq<Op>, dir: Dir, i: nat): Option<nat>
    requires i < |run| && |run| == |ops| + 1
  {
    if i == 0 || run[i].log.None? then None
    else
      match ops[i - 1]
      case Restart(sth, cosigned, _) => if dir.Sth? then sth else cosigned
      case _ =>
        if Published(env, run[i - 1], ops[i - 1], dir).Some? then Published(env, run[i - 1], ops[i - 1], dir)
        else LatestSize(env, run, ops, dir, i - 1)
  }

  /** The slot of a kind holds the head in the file of that kind and size, and is empty
      when there is none. */
  ghost predicate HoldsLatest(env: Env, s: System, dir: Dir, size: Option<nat>)
    requires s.log.Some?
  {
    var latest := s.log.value.latest;
    match size
    case None => dir !in latest
    case Some(n) =>
      dir in latest && HeadFile(dir, n) in s.files && env.decHead(dir, s.files[HeadFile(dir, n)]) == Some(latest[dir])
  }

  lemma RestartHolds(env: Env, s: System, op: Op, dir: Dir)
    requires op.Restart? && Enabled(s, op) && Step(env, s, op).log.Some?
    ensures HoldsLatest(env, Step(env, s, op), dir, if dir.Sth? then op.sth else op.cosigned)
  {
  }

  /** A published head: size, root and the caller's timestamp in its body, the signer's
      signatures, recorded in its file, held in its slot, and returned. */
  lemma PublishedHead(env: Env, s: System, op: Op, dir: Dir)
    requires GoodCodecs(env) && Published(env, s, op, dir).Some?
    ensures RootOrZero(env, s.log.value.tree) ==
            if s.log.value.tree == [] then Digest(0, 0, 0, 0, 0, 0) else Mth(env.nodeHash, s.log.value.tree)
    ensures var t, n := Step(env, s, op), |s.log.value.tree|;
            && t.log.Some? && HoldsLatest(env, t, dir, Some(n))
            && (forall other | other != dir :: other in t.log.value.latest <==> other in s.log.value.latest)
            && (forall other | other != dir && other in s.log.value.latest ::
                  t.log.value.latest[other] == s.log.value.latest[other])
            && var head := t.log.value.latest[dir];
               && op.signatures == Some(head.signatures)
               && env.decBody(head.bodyCbor) == Some(SthBody(n, RootOrZero(env, s.log.value.tree), op.timestamp))
               && Produced(env, s.files, s.log.value, dir, op.timestamp, op.signatures, op.headFate).2 == Ok(head)
  {
    var body := CurrentBody(env, s.log.value.tree, op.timestamp);
    assert env.decBody(env.encBody(body)) == Some(body);
    var head := Head(env.encBody(body), op.signatures.value);
    assert env.decHead(dir, env.encHead(dir, head)) == Some(head);
  }

  /** Without a restart or a publication of that kind the slot stays. */
  lemma OtherwiseHeld(env: Env, s: System, op: Op, dir: Dir, size: Option<nat>)
    requires GoodCodecs(env) && Inv(env, s) && Enabled(s, op) && s.log.Some? && Step(env, s, op).log.Some?
    requires !op.Restart? && Published(env, s, op, dir).None? && HoldsLatest(env, s, dir, size)
    ensures HoldsLatest(env, Step(env, s, op), dir, size)
    ensures dir in s.log.value.latest ==> Step(env, s, op).log.value.latest[dir] == s.log.value.latest[dir]
  {
    StepExtends(env, s, op);
    if op.Produce? && Published(env, s, op, op.dir).Some? {
      PublishedHead(env, s, op, op.dir);
    }
  }

  /** In every state of every run in which the log is open, each slot holds exactly the
      head of that kind that the history says, or nothing. */
  lemma {:induction false} LatestHeads(env: Env, run: seq<System>, ops: seq<Op>, dir: Dir, i: nat)
    requires GoodCodecs(env) && IsRun(env, run, ops) && i < |run| && run[i].log.Some?
    ensures HoldsLatest(env, run[i], dir, LatestSize(env, run, ops, dir, i))
  {
    if i > 0 {
      var s, op := run[i - 1], ops[i - 1];
      if op.Restart? {
        RestartHolds(env, s, op, dir);
      } else if Published(env, s, op, dir).Some? {
        PublishedHead(env, s, op, dir);
      } else {
        LatestHeads(env, run, ops, dir, i - 1);
        RunKeeps(env, run, ops, i - 1);
        OtherwiseHeld(env, s, op, dir, LatestSize(env, run, ops, dir, i - 1));
      }
    }
  }

  /** An append that is acknowledged: the next index, both files written with the event and
      the hash of the event, the hash at the end of the tree, and the event on record. */
  lemma AcknowledgedAppend(env: Env, run: seq<System>, ops: seq<Op>, i: nat)
    requires GoodCodecs(env) && IsRun(env, run, ops) && i < |ops| && ops[i].Append? && run[i].log.Some?
    requires Appended(env, run[i].files, run[i].log.value, ops[i].raw, ops[i].fate, ops[i].hashFate).2.Ok?
    ensures var op, s, t, k := ops[i], run[i], run[i + 1], |run[i].log.value.tree|;
            && Appended(env, s.files, s.log.value, op.raw, op.fate, op.hashFate).2 == Ok(k)
            && t.files == s.files[Leaf(k) := op.raw][LeafHash(k) := env.digestBytes(env.leafHash(op.raw))]
            && t.log == Some(TreeState(s.log.value.tree + [env.leafHash(op.raw)], s.log.value.latest))
            && k !in s.acked && t.acked == s.acked[k := op.raw]
  {
    RunKeeps(env, run, ops, i);
  }
}
