/** RFC 6962 Merkle tree hash, inclusion paths and consistency proofs
    (sections 2.1, 2.1.1 and 2.1.2 of RFC 6962).

    The node hash is a parameter: every statement here holds for every function
    of two digests, so nothing is assumed about SHA3-384. */
module Merkle {
  import opened Prelude

  /** A SHA3-384 digest: 384 bits. */
  newtype Word = x: int | 0 <= x < 0x1_0000_0000_0000_0000

  datatype Digest = Digest(w0: Word, w1: Word, w2: Word, w3: Word, w4: Word, w5: Word)

  type NodeHash = (Digest, Digest) -> Digest

  // ---------------------------------------------------------------- splitting

  predicate IsPow2(n: nat) {
    n == 1 || (n > 1 && n % 2 == 0 && IsPow2(n / 2))
  }

  /** Doubling from k: the largest k * 2^j strictly below n. */
  function SplitFrom(k: nat, n: nat): (r: nat)
    requires 1 <= k < n
    ensures k <= r < n <= 2 * r
    decreases n - k
  {
    if 2 * k < n then SplitFrom(2 * k, n) else k
  }

  /** The largest power of two strictly below n. */
  function Split(n: nat): (k: nat)
    requires n >= 2
    ensures 1 <= k < n <= 2 * k
  {
    SplitFrom(1, n)
  }

  /** The doubling loop finds the split point. */
  method LargestPow2Below(n: nat) returns (k: nat)
    requires n >= 2
    ensures k == Split(n)
    ensures IsPow2(k) && k < n <= 2 * k
  {
    k := 1;
    while k * 2 < n
      invariant IsPow2(k) && k < n
      invariant SplitFrom(k, n) == Split(n)
      decreases n - k
    {
      k := k * 2;
    }
  }

  // ----------------------------------------------------- the top-down generator
  //
  // The recursion works on sub-slices of one list, written here as the n
  // leaves from index lo on.

  function MthRange(h: NodeHash, d: seq<Digest>, lo: nat, n: nat): Digest
    requires n >= 1 && lo + n <= |d|
    decreases n
  {
    if n == 1 then d[lo]
    else
      var k := Split(n);
      h(MthRange(h, d, lo, k), MthRange(h, d, lo + k, n - k))
  }

  function PathRange(h: NodeHash, m: nat, d: seq<Digest>, lo: nat, n: nat): seq<Digest>
    requires m < n && lo + n <= |d|
    decreases n
  {
    if n == 1 then []
    else
      var k := Split(n);
      if m < k then PathRange(h, m, d, lo, k) + [MthRange(h, d, lo + k, n - k)]
      else PathRange(h, m - k, d, lo + k, n - k) + [MthRange(h, d, lo, k)]
  }

  function SubproofRange(h: NodeHash, m: nat, d: seq<Digest>, lo: nat, n: nat, b: bool): seq<Digest>
    requires 1 <= m <= n && lo + n <= |d|
    decreases n
  {
    if m == n then
      if b then [] else [MthRange(h, d, lo, n)]
    else
      var k := Split(n);
      if m <= k then SubproofRange(h, m, d, lo, k, b) + [MthRange(h, d, lo + k, n - k)]
      else SubproofRange(h, m - k, d, lo + k, n - k, false) + [MthRange(h, d, lo, k)]
  }

  function Mth(h: NodeHash, d: seq<Digest>): Digest
    requires |d| >= 1
  {
    MthRange(h, d, 0, |d|)
  }

  function Path(h: NodeHash, m: nat, d: seq<Digest>): seq<Digest>
    requires m < |d|
  {
    PathRange(h, m, d, 0, |d|)
  }

  function Proof(h: NodeHash, m: nat, d: seq<Digest>): seq<Digest>
    requires 1 <= m <= |d|
  {
    SubproofRange(h, m, d, 0, |d|, true)
  }

  /** The root of a range depends on the leaves in it and on nothing else. */
  lemma {:induction false} MthRangeLocal(h: NodeHash, a: seq<Digest>, b: seq<Digest>, lo: nat, n: nat)
    requires n >= 1 && lo + n <= |a| && lo + n <= |b|
    requires forall i | lo <= i < lo + n :: a[i] == b[i]
    ensures MthRange(h, a, lo, n) == MthRange(h, b, lo, n)
    decreases n
  {
    if n > 1 {
      var k := Split(n);
      MthRangeLocal(h, a, b, lo, k);
      MthRangeLocal(h, a, b, lo + k, n - k);
    }
  }

  lemma MthOfPrefix(h: NodeHash, d: seq<Digest>, m: nat)
    requires 1 <= m <= |d|
    ensures Mth(h, d[..m]) == MthRange(h, d, 0, m)
  {
    MthRangeLocal(h, d[..m], d, 0, m);
  }

  // --------------------------------------- what a proof says, read from the root

  /** The root a tree of n leaves would have if `leaf` sat at index m and p[..e]
      listed the siblings on its path from the bottom up. None: wrong length. */
  function RootFromPath(h: NodeHash, leaf: Digest, m: nat, n: nat, p: seq<Digest>, e: nat): Option<Digest>
    requires m < n && e <= |p|
    decreases n
  {
    if n == 1 then if e == 0 then Some(leaf) else None
    else if e == 0 then None
    else
      var k := Split(n);
      if m < k then
        match RootFromPath(h, leaf, m, k, p, e - 1)
        case None => None
        case Some(r) => Some(h(r, p[e - 1]))
      else
        match RootFromPath(h, leaf, m - k, n - k, p, e - 1)
        case None => None
        case Some(r) => Some(h(p[e - 1], r))
  }

  /** The roots of the old and of the new tree that a consistency proof claims. */
  datatype Claim = NoClaim | Claim(was: Digest, now: Digest)

  /** The two roots one level up, when the old tree ends in the left subtree
      (the right one, `x`, is all new) or in the right subtree (`x` is all old). */
  function InLeft(h: NodeHash, r: Claim, x: Digest): Claim {
    match r
    case NoClaim => NoClaim
    case Claim(was, now) => Claim(was, h(now, x))
  }

  function InRight(h: NodeHash, r: Claim, x: Digest): Claim {
    match r
    case NoClaim => NoClaim
    case Claim(was, now) => Claim(h(x, was), h(x, now))
  }

  /** The old root (first m leaves) and new root (all n leaves) that the consistency
      proof p[..e] claims. With `b`, the old root is itself a subtree and is not
      listed. */
  function RootsFromProof(h: NodeHash, m: nat, n: nat, b: bool, oldRoot: Digest, p: seq<Digest>, e: nat)
    : Claim
    requires 1 <= m <= n && e <= |p|
    decreases n
  {
    if m == n then
      if b then if e == 0 then Claim(oldRoot, oldRoot) else NoClaim
      else if e == 1 then Claim(p[0], p[0]) else NoClaim
    else if e == 0 then NoClaim
    else
      var k := Split(n);
      if m <= k then
        InLeft(h, RootsFromProof(h, m, k, b, oldRoot, p, e - 1), p[e - 1])
      else
        InRight(h, RootsFromProof(h, m - k, n - k, false, oldRoot, p, e - 1), p[e - 1])
  }

  /** `verify_inclusion`, as a statement about the tree shape. */
  predicate InclusionAccepts(h: NodeHash, leaf: Digest, m: nat, n: nat, root: Digest, p: seq<Digest>) {
    m < n && RootFromPath(h, leaf, m, n, p, |p|) == Some(root)
  }

  /** `verify_consistency`, as a statement about the tree shape. */
  predicate ConsistencyAccepts(h: NodeHash, m: nat, n: nat, oldRoot: Digest, newRoot: Digest, p: seq<Digest>) {
    1 <= m <= n && RootsFromProof(h, m, n, true, oldRoot, p, |p|) == Claim(oldRoot, newRoot)
  }
}
