/** The local-disk write-once store: every file is created once, by `WriteNew`, and
    a write may succeed, tear or never happen. */
module AuditStore {
  import opened Prelude
  import opened Merkle
  import opened Disk

  /** Single-signer heads live in one directory, co-signed heads in another. */
  datatype Dir = Sth | Cosigned

  datatype File =
    | Leaf(index: nat)
    | LeafHash(index: nat)
    | HeadFile(dir: Dir, treeSize: nat)
    | Foreign(name: string)

  type Files = map<File, Bytes>

  datatype SthBody = SthBody(treeSize: nat, root: Digest, timestamp: int)

  /** A signed head: the encoded body and its (key id, signature) entries. */
  datatype Head = Head(bodyCbor: Bytes, signatures: seq<(string, string)>)

  /** The hashes and codecs the log is built over. */
  datatype Env = Env(
    leafHash: Bytes -> Digest,
    nodeHash: NodeHash,
    digestBytes: Digest -> Bytes,
    encBody: SthBody -> Bytes,
    decBody: Bytes -> Option<SthBody>,
    encHead: (Dir, Head) -> Bytes,
    decHead: (Dir, Bytes) -> Option<Head>)

  /** Encodings decode to what was encoded, and half a JSON object is not JSON. */
  ghost predicate GoodCodecs(env: Env) {
    && (forall b :: env.decBody(env.encBody(b)) == Some(b))
    && (forall dir, head :: env.decHead(dir, env.encHead(dir, head)) == Some(head))
    && (forall dir, head, k: nat :: k < |env.encHead(dir, head)| ==>
        env.decHead(dir, env.encHead(dir, head)[..k]) == None)
  }

  datatype StoreError = Io | AlreadyExists(file: File) | Decode | Encode

  function CreateFile(files: Files, file: File, bytes: Bytes, fate: Fate): (Files, Result<(), StoreError>) {
    if fate.OpenFails? then (files, Err(Io))
    else if file in files then (files, Err(AlreadyExists(file)))
    else (files[file := Landed(bytes, fate)], if fate.Done? then Ok(()) else Err(Io))
  }

  function PutLeaf(env: Env, files: Files, index: nat, raw: Bytes, leafHash: Digest, fate: Fate, hashFate: Fate)
    : (Files, Result<(), StoreError>)
  {
    var (files1, r1) := CreateFile(files, Leaf(index), raw, fate);
    if r1.Err? then (files1, r1)
    else CreateFile(files1, LeafHash(index), env.digestBytes(leafHash), hashFate)
  }

  function PutHead(env: Env, files: Files, dir: Dir, head: Head, fate: Fate): (Files, Result<(), StoreError>) {
    match env.decBody(head.bodyCbor)
    case None => (files, Err(Encode))
    case Some(body) => CreateFile(files, HeadFile(dir, body.treeSize), env.encHead(dir, head), fate)
  }

  /** A file, once there, is there for good with the bytes it has. */
  ghost predicate WriteOnce(before: Files, after: Files) {
    forall f | f in before :: f in after && after[f] == before[f]
  }

  predicate IsNewest(files: Files, dir: Dir, best: Option<nat>) {
    match best
    case None => forall f | f in files :: !(f.HeadFile? && f.dir == dir)
    case Some(n) => HeadFile(dir, n) in files && forall f | f in files && f.HeadFile? && f.dir == dir :: f.treeSize <= n
  }

  lemma NewestUnique(files: Files, dir: Dir, a: Option<nat>, b: Option<nat>)
    requires IsNewest(files, dir, a) && IsNewest(files, dir, b)
    ensures a == b
  {
    if a.Some? {
      assert HeadFile(dir, a.value) in files;
    }
    if b.Some? {
      assert HeadFile(dir, b.value) in files;
    }
  }

  class LocalDiskWormStore {
    var files: Files
    const env: Env

    constructor (env: Env)
      ensures files == map[] && this.env == env
    {
      this.files := map[];
      this.env := env;
    }

    method WriteNew(file: File, bytes: Bytes, fate: Fate) returns (r: Result<(), StoreError>)
      modifies this
      ensures (files, r) == CreateFile(old(files), file, bytes, fate)
      ensures WriteOnce(old(files), files)
      ensures r.Ok? <==> fate.Done? && file !in old(files)
      ensures r.Ok? ==> file in files && files[file] == bytes
    {
      if fate.OpenFails? {
        return Err(Io);
      }
      if file in files {
        return Err(AlreadyExists(file));
      }
      files := files[file := Landed(bytes, fate)];
      r := if fate.Done? then Ok(()) else Err(Io);
    }

    method AppendLeaf(index: nat, raw: Bytes, leafHash: Digest, fate: Fate, hashFate: Fate)
      returns (r: Result<(), StoreError>)
      modifies this
      ensures (files, r) == PutLeaf(env, old(files), index, raw, leafHash, fate, hashFate)
      ensures WriteOnce(old(files), files)
    {
      r := WriteNew(Leaf(index), raw, fate);
      if r.Err? {
        return;
      }
      r := WriteNew(LeafHash(index), env.digestBytes(leafHash), hashFate);
    }

    method RecordHead(dir: Dir, head: Head, fate: Fate) returns (r: Result<(), StoreError>)
      modifies this
      ensures (files, r) == PutHead(env, old(files), dir, head, fate)
      ensures WriteOnce(old(files), files)
    {
      match env.decBody(head.bodyCbor)
      case None =>
        r := Err(Encode);
      case Some(body) =>
        r := WriteNew(HeadFile(dir, body.treeSize), env.encHead(dir, head), fate);
    }

    /** The directory scan, in whatever order the entries come, keeping the best. */
    method ReadLatestIn(dir: Dir) returns (best: Option<nat>)
      ensures IsNewest(files, dir, best)
    {
      best := None;
      var todo := files.Keys;
      while todo != {}
        invariant todo <= files.Keys
        invariant best.Some? ==> HeadFile(dir, best.value) in files
        invariant forall f | f in files && f !in todo && f.HeadFile? && f.dir == dir ::
                    best.Some? && f.treeSize <= best.value
        decreases todo
      {
        var f :| f in todo;
        todo := todo - {f};
        if f.HeadFile? && f.dir == dir && (best.None? || f.treeSize > best.value) {
          best := Some(f.treeSize);
        }
      }
    }
  }
}
