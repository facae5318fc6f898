/** The audit log: an in-memory Merkle tree kept in step with the store. */
module AuditLog {
  import opened Prelude
  import opened Merkle
  import opened Disk
  import opened AuditStore
  import MerkleProofs

  const ZERO: Digest := Digest(0, 0, 0, 0, 0, 0)

  datatype LogError = Store(error: StoreError) | Signer | Body | Range | Resume

  /** The mutex-guarded state: the tree's leaf hashes and the latest heads. */
  datatype TreeState = TreeState(tree: seq<Digest>, latest: map<Dir, Head>)

  function Hashes(env: Env, leaves: seq<Bytes>): (d: seq<Digest>)
    ensures |d| == |leaves| && forall i | 0 <= i < |d| :: d[i] == env.leafHash(leaves[i])
  {
    seq(|leaves|, i requires 0 <= i < |leaves| => env.leafHash(leaves[i]))
  }

  function RootOrZero(env: Env, tree: seq<Digest>): Digest {
    if tree == [] then ZERO else Mth(env.nodeHash, tree)
  }

  // ------------------------------------------------------------------- resuming

  function LeavesFrom(files: Files, i: nat): set<File> {
    set f | f in files && f.Leaf? && f.index >= i
  }

  /** The leaves stored from index i on, up to the first gap. */
  function StoredFrom(files: Files, i: nat): (s: seq<Bytes>)
    ensures forall k | i <= k < i + |s| :: Leaf(k) in files && s[k - i] == files[Leaf(k)]
    ensures Leaf(i + |s|) !in files
    decreases LeavesFrom(files, i)
  {
    if Leaf(i) !in files then []
    else
      assert Leaf(i) in LeavesFrom(files, i) && Leaf(i) !in LeavesFrom(files, i + 1);
      [files[Leaf(i)]] + StoredFrom(files, i + 1)
  }

  function Stored(files: Files): seq<Bytes> {
    StoredFrom(files, 0)
  }

  /** The newest head of a directory, read back: nothing, a head, or a failure. */
  function ReadHead(env: Env, files: Files, dir: Dir, newest: Option<nat>, unreadable: set<File>)
    : Result<Option<Head>, LogError>
    requires newest.Some? ==> HeadFile(dir, newest.value) in files
  {
    match newest
    case None => Ok(None)
    case Some(n) =>
      if HeadFile(dir, n) in unreadable then Err(Store(Io))
      else
        match env.decHead(dir, files[HeadFile(dir, n)])
        case None => Err(Store(Decode))
        case Some(head) => Ok(Some(head))
  }

  /** Whether a rebuilt tree agrees with a persisted head. */
  function Checked(env: Env, tree: seq<Digest>, head: Option<Head>): Result<(), LogError> {
    if head.None? then Ok(())
    else
      match env.decBody(head.value.bodyCbor)
      case None => Err(Body)
      case Some(body) =>
        if body.treeSize > |tree| then Err(Resume)
        else if RootOrZero(env, tree[..body.treeSize]) != body.root then Err(Resume)
        else Ok(())
  }

  function HeadMap(sth: Option<Head>, cosigned: Option<Head>): map<Dir, Head> {
    (if sth.Some? then map[Sth := sth.value] else map[]) +
    (if cosigned.Some? then map[Cosigned := cosigned.value] else map[])
  }

  /** Opening a log over a store, given the newest heads the scan finds. */
  function Opened(env: Env, files: Files, sth: Option<nat>, cosigned: Option<nat>, unreadable: set<File>)
    : Result<TreeState, LogError>
    requires IsNewest(files, Sth, sth) && IsNewest(files, Cosigned, cosigned)
  {
    var leaves := Stored(files);
    if exists i | 0 <= i < |leaves| :: Leaf(i) in unreadable then Err(Store(Io))
    else
      var tree := Hashes(env, leaves);
      match ReadHead(env, files, Sth, sth, unreadable)
      case Err(e) => Err(e)
      case Ok(head) =>
        match Checked(env, tree, head)
        case Err(e) => Err(e)
        case Ok(_) =>
          match ReadHead(env, files, Cosigned, cosigned, unreadable)
          case Err(e) => Err(e)
          case Ok(cohead) => Ok(TreeState(tree, HeadMap(head, cohead)))
  }

  // ---------------------------------------------------------------- operations

  function Appended(env: Env, files: Files, st: TreeState, raw: Bytes, fate: Fate, hashFate: Fate)
    : (Files, TreeState, Result<nat, LogError>)
  {
    var index := |st.tree|;
    var (files', r) := PutLeaf(env, files, index, raw, env.leafHash(raw), fate, hashFate);
    match r
    case Err(e) => (files', st, Err(Store(e)))
    case Ok(_) => (files', st.(tree := st.tree + [env.leafHash(raw)]), Ok(index))
  }

  /** The body a head over the current tree carries. */
  function CurrentBody(env: Env, tree: seq<Digest>, timestamp: int): SthBody {
    SthBody(|tree|, RootOrZero(env, tree), timestamp)
  }

  /** `signatures` is what the signer answers; None is a signer failure. */
  function Produced(env: Env, files: Files, st: TreeState, dir: Dir, timestamp: int,
                    signatures: Option<seq<(string, string)>>, fate: Fate)
    : (Files, TreeState, Result<Head, LogError>)
  {
    match signatures
    case None => (files, st, Err(Signer))
    case Some(sigs) =>
      var head := Head(env.encBody(CurrentBody(env, st.tree, timestamp)), sigs);
      var (files', r) := PutHead(env, files, dir, head, fate);
      match r
      case Err(e) => (files', st, Err(Store(e)))
      case Ok(_) => (files', st.(latest := st.latest[dir := head]), Ok(head))
  }

  datatype InclusionProof = InclusionProof(leafHash: Digest, leafIndex: nat, treeSize: nat, rootHash: Digest,
    auditPath: seq<Digest>)

  datatype ConsistencyProof = ConsistencyProof(oldSize: nat, newSize: nat, newRootHash: Digest, auditPath: seq<Digest>)

  class AuditLog {
    const store: LocalDiskWormStore
    const env: Env
    var state: TreeState

    constructor Over(store: LocalDiskWormStore, state: TreeState)
      ensures this.store == store && this.env == store.env && this.state == state
    {
      this.store, this.env, this.state := store, store.env, state;
    }

    ghost predicate Valid()
      reads this, store
    {
      env == store.env
    }

    /** Resume from whatever the store holds. */
    static method Open(store: LocalDiskWormStore, unreadable: set<File>)
      returns (r: Result<AuditLog, LogError>, sth: Option<nat>, cosigned: Option<nat>)
      ensures IsNewest(store.files, Sth, sth) && IsNewest(store.files, Cosigned, cosigned)
      ensures match Opened(store.env, store.files, sth, cosigned, unreadable)
              case Err(e) => r == Err(e)
              case Ok(st) => r.Ok? && fresh(r.value) && r.value.Valid() && r.value.store == store && r.value.state == st
    {
      sth := store.ReadLatestIn(Sth);
      cosigned := store.ReadLatestIn(Cosigned);
      var env, files := store.env, store.files;
      ghost var leaves := Stored(files);
      var tree: seq<Digest> := [];
      while Leaf(|tree|) in files
        invariant |tree| <= |leaves| && tree == Hashes(env, leaves)[..|tree|]
        invariant forall i | 0 <= i < |tree| :: Leaf(i) !in unreadable
        decreases |leaves| - |tree|
      {
        if Leaf(|tree|) in unreadable {
          return Err(Store(Io)), sth, cosigned;
        }
        tree := tree + [env.leafHash(files[Leaf(|tree|)])];
      }
      assert tree == Hashes(env, leaves);
      var head := ReadHead(env, files, Sth, sth, unreadable);
      if head.Err? {
        return Err(head.error), sth, cosigned;
      }
      if head.value.Some? {
        var body := env.decBody(head.value.value.bodyCbor);
        if body.None? {
          return Err(Body), sth, cosigned;
        }
        var covered := body.value.treeSize;
        if covered > |tree| {
          return Err(Resume), sth, cosigned;
        }
        var prefix: seq<Digest> := [];
        for i := 0 to covered
          invariant prefix == tree[..i]
        {
          prefix := prefix + [tree[i]];
        }
        if RootOrZero(env, prefix) != body.value.root {
          return Err(Resume), sth, cosigned;
        }
      }
      var cohead := ReadHead(env, files, Cosigned, cosigned, unreadable);
      if cohead.Err? {
        return Err(cohead.error), sth, cosigned;
      }
      var log := new AuditLog.Over(store, TreeState(tree, HeadMap(head.value, cohead.value)));
      r := Ok(log);
    }

    method Append(raw: Bytes, fate: Fate, hashFate: Fate) returns (r: Result<nat, LogError>)
      requires Valid()
      modifies this, store
      ensures Valid()
      ensures (store.files, state, r) == Appended(env, old(store.files), old(state), raw, fate, hashFate)
    {
      var hash := env.leafHash(raw);
      var index := |state.tree|;
      var w := store.AppendLeaf(index, raw, hash, fate, hashFate);
      if w.Err? {
        return Err(Store(w.error));
      }
      state := state.(tree := state.tree + [hash]);
      r := Ok(index);
    }

    /** `produce_sth` and `produce_cosigned_sth`: the same steps, other directory. */
    method ProduceHead(dir: Dir, timestamp: int, signatures: Option<seq<(string, string)>>, fate: Fate)
      returns (r: Result<Head, LogError>)
      requires Valid()
      modifies this, store
      ensures Valid()
      ensures (store.files, state, r) == Produced(env, old(store.files), old(state), dir, timestamp, signatures, fate)
    {
      var body := CurrentBody(env, state.tree, timestamp);
      if signatures.None? {
        return Err(Signer);
      }
      var head := Head(env.encBody(body), signatures.value);
      var w := store.RecordHead(dir, head, fate);
      if w.Err? {
        return Err(Store(w.error));
      }
      state := state.(latest := state.latest[dir := head]);
      r := Ok(head);
    }

    /** The proof handed out is the one the verifier accepts for that leaf. */
    method ProveInclusion(index: nat) returns (r: Result<InclusionProof, LogError>)
      ensures r.Ok? <==> index < |state.tree|
      ensures r.Ok? ==>
                var p := r.value;
                && p.leafIndex == index && p.treeSize == |state.tree| && p.leafHash == state.tree[index]
                && p.rootHash == RootOrZero(env, state.tree)
                && InclusionAccepts(env.nodeHash, p.leafHash, index, p.treeSize, p.rootHash, p.auditPath)
    {
      var tree := state.tree;
      if index >= |tree| {
        return Err(Range);
      }
      MerkleProofs.InclusionComplete(env.nodeHash, index, tree);
      r := Ok(InclusionProof(tree[index], index, |tree|, Mth(env.nodeHash, tree), Path(env.nodeHash, index, tree)));
    }

    method ProveConsistency(oldSize: nat) returns (r: Result<ConsistencyProof, LogError>)
      ensures r.Ok? <==> 1 <= oldSize <= |state.tree|
      ensures r.Ok? ==>
                var p := r.value;
                && p.oldSize == oldSize && p.newSize == |state.tree|
                && p.newRootHash == RootOrZero(env, state.tree)
                && ConsistencyAccepts(env.nodeHash, oldSize, p.newSize, RootOrZero(env, state.tree[..oldSize]),
                   p.newRootHash, p.auditPath)
    {
      var tree := state.tree;
      if oldSize == 0 || oldSize > |tree| {
        return Err(Range);
      }
      MerkleProofs.ConsistencyComplete(env.nodeHash, oldSize, tree);
      r := Ok(ConsistencyProof(oldSize, |tree|, Mth(env.nodeHash, tree), Proof(env.nodeHash, oldSize, tree)));
    }
  }
}
