/** What acceptance means: every generated proof is accepted, and an accepted proof
    pins down the leaves it speaks of unless it exhibits two different pairs of
    digests with the same node hash.

    A collision of SHA3-384 exists by counting alone, so "or a collision exists"
    would say nothing: each soundness lemma names the function that extracts the
    colliding pairs from the trees and the proof at hand. */
module MerkleProofs {
  import opened Prelude
  import opened Merkle

  datatype NodeCollision = NodeCollision(l: Digest, r: Digest, l': Digest, r': Digest)

  predicate Collides(h: NodeHash, c: NodeCollision) {
    h(c.l, c.r) == h(c.l', c.r') && !(c.l == c.l' && c.r == c.r')
  }

  /** The collision between two nodes, if their hashes agree and their children do not. */
  function Clash(h: NodeHash, l: Digest, r: Digest, l': Digest, r': Digest): (c: Option<NodeCollision>)
    ensures c.Some? ==> Collides(h, c.value)
    ensures c.None? && h(l, r) == h(l', r') ==> l == l' && r == r'
  {
    var n := NodeCollision(l, r, l', r');
    if Collides(h, n) then Some(n) else None
  }

  function Or<T>(a: Option<T>, b: Option<T>): Option<T> {
    if a.Some? then a else b
  }

  // ------------------------------------------------------------------ root hash

  /** Where two lists with one root over a range first disagree inside the tree. */
  function TreeCollision(h: NodeHash, a: seq<Digest>, b: seq<Digest>, lo: nat, n: nat): (c: Option<NodeCollision>)
    requires n >= 1 && lo + n <= |a| && lo + n <= |b|
    ensures c.Some? ==> Collides(h, c.value)
    decreases n
  {
    if n == 1 then None
    else
      var k := Split(n);
      Or(Clash(h, MthRange(h, a, lo, k), MthRange(h, a, lo + k, n - k), MthRange(h, b, lo, k),
        MthRange(h, b, lo + k, n - k)),
         Or(TreeCollision(h, a, b, lo, k), TreeCollision(h, a, b, lo + k, n - k)))
  }

  lemma {:induction false} RangeBindsLeaves(h: NodeHash, a: seq<Digest>, b: seq<Digest>, lo: nat, n: nat)
    requires n >= 1 && lo + n <= |a| && lo + n <= |b| && MthRange(h, a, lo, n) == MthRange(h, b, lo, n)
    requires TreeCollision(h, a, b, lo, n).None?
    ensures forall i | lo <= i < lo + n :: a[i] == b[i]
    decreases n
  {
    if n > 1 {
      var k := Split(n);
      RangeBindsLeaves(h, a, b, lo, k);
      RangeBindsLeaves(h, a, b, lo + k, n - k);
    }
  }

  lemma RootBindsLeaves(h: NodeHash, a: seq<Digest>, b: seq<Digest>)
    requires |a| == |b| >= 1 && Mth(h, a) == Mth(h, b)
    ensures a == b || TreeCollision(h, a, b, 0, |a|).Some?
  {
    if TreeCollision(h, a, b, 0, |a|).None? {
      RangeBindsLeaves(h, a, b, 0, |a|);
    }
  }

  // ------------------------------------------------------------------ inclusion

  lemma TakeSnoc<T>(p: seq<T>, e: nat)
    requires 0 < e <= |p|
    ensures p[..e] == p[..e - 1] + [p[e - 1]]
  {
  }

  lemma SplitSnoc<T>(p: seq<T>, e: nat, q: seq<T>, x: T)
    requires e <= |p| && p[..e] == q + [x]
    ensures e == |q| + 1 && p[..e - 1] == q && p[e - 1] == x
  {
    TakeSnoc(p, e);
    assert (q + [x])[..|q|] == q;
  }

  lemma {:induction false} PathComplete(h: NodeHash, m: nat, d: seq<Digest>, lo: nat, n: nat, p: seq<Digest>, e: nat)
    requires m < n && lo + n <= |d| && e <= |p| && p[..e] == PathRange(h, m, d, lo, n)
    ensures RootFromPath(h, d[lo + m], m, n, p, e) == Some(MthRange(h, d, lo, n))
    decreases n
  {
    if n > 1 {
      var k := Split(n);
      if m < k {
        SplitSnoc(p, e, PathRange(h, m, d, lo, k), MthRange(h, d, lo + k, n - k));
        PathComplete(h, m, d, lo, k, p, e - 1);
      } else {
        SplitSnoc(p, e, PathRange(h, m - k, d, lo + k, n - k), MthRange(h, d, lo, k));
        PathComplete(h, m - k, d, lo + k, n - k, p, e - 1);
      }
    }
  }

  /** Every generated inclusion proof is accepted. */
  lemma InclusionComplete(h: NodeHash, m: nat, d: seq<Digest>)
    requires m < |d|
    ensures InclusionAccepts(h, d[m], m, |d|, Mth(h, d), Path(h, m, d))
  {
    var p := Path(h, m, d);
    assert p[..|p|] == p;
    PathComplete(h, m, d, 0, |d|, p, |p|);
  }

  /** The collision an accepted proof holds when it is not the generated one. */
  function PathCollision(h: NodeHash, leaf: Digest, m: nat, d: seq<Digest>, lo: nat, n: nat, p: seq<Digest>, e: nat)
    : (c: Option<NodeCollision>)
    requires m < n && lo + n <= |d| && e <= |p|
    ensures c.Some? ==> Collides(h, c.value)
    decreases n
  {
    if n == 1 || e == 0 then None
    else
      var k := Split(n);
      var left, right := MthRange(h, d, lo, k), MthRange(h, d, lo + k, n - k);
      if m < k then
        match RootFromPath(h, leaf, m, k, p, e - 1)
        case None => None
        case Some(r) => Or(Clash(h, r, p[e - 1], left, right), PathCollision(h, leaf, m, d, lo, k, p, e - 1))
      else
        match RootFromPath(h, leaf, m - k, n - k, p, e - 1)
        case None => None
        case Some(r) => Or(Clash(h, p[e - 1], r, left, right),
          PathCollision(h, leaf, m - k, d, lo + k, n - k, p, e - 1))
  }

  lemma {:induction false} PathSound(h: NodeHash, leaf: Digest, m: nat, d: seq<Digest>, lo: nat, n: nat,
                                     p: seq<Digest>, e: nat)
    requires m < n && lo + n <= |d| && e <= |p|
    requires RootFromPath(h, leaf, m, n, p, e) == Some(MthRange(h, d, lo, n))
    requires PathCollision(h, leaf, m, d, lo, n, p, e).None?
    ensures leaf == d[lo + m] && p[..e] == PathRange(h, m, d, lo, n)
    decreases n
  {
    if n > 1 {
      var k := Split(n);
      TakeSnoc(p, e);
      if m < k {
        PathSound(h, leaf, m, d, lo, k, p, e - 1);
      } else {
        PathSound(h, leaf, m - k, d, lo + k, n - k, p, e - 1);
      }
    }
  }

  /** An accepted inclusion proof is the generated one, for the leaf that is there. */
  lemma InclusionSound(h: NodeHash, leaf: Digest, m: nat, d: seq<Digest>, p: seq<Digest>)
    requires m < |d| && InclusionAccepts(h, leaf, m, |d|, Mth(h, d), p)
    ensures (leaf == d[m] && p == Path(h, m, d)) || PathCollision(h, leaf, m, d, 0, |d|, p, |p|).Some?
  {
    if PathCollision(h, leaf, m, d, 0, |d|, p, |p|).None? {
      PathSound(h, leaf, m, d, 0, |d|, p, |p|);
      assert p[..|p|] == p;
    }
  }

  // ---------------------------------------------------------------- consistency

  /** A prefix that reaches past the cut is cut at the same place. */
  lemma SplitPrefix(m: nat, n: nat)
    requires 2 <= n && Split(n) < m <= n
    ensures Split(m) == Split(n)
  {
    SplitFromPrefix(1, m, n);
  }

  lemma {:induction false} SplitFromPrefix(k: nat, m: nat, n: nat)
    requires 1 <= k < m <= n && SplitFrom(k, n) < m
    ensures SplitFrom(k, m) == SplitFrom(k, n)
    decreases n - k
  {
    if 2 * k < n {
      SplitFromPrefix(2 * k, m, n);
    }
  }

  /** The root of the first m leaves, when m reaches past the cut of all n. */
  lemma RangePrefix(h: NodeHash, d: seq<Digest>, lo: nat, m: nat, n: nat, k: nat)
    requires 2 <= n && k == Split(n) < m <= n && lo + n <= |d|
    ensures MthRange(h, d, lo, m) == h(MthRange(h, d, lo, k), MthRange(h, d, lo + k, m - k))
  {
    SplitPrefix(m, n);
  }

  lemma SubproofLeft(h: NodeHash, m: nat, d: seq<Digest>, lo: nat, n: nat, b: bool, oldRoot: Digest, p: seq<Digest>,
                     e: nat, k: nat)
    requires 1 <= m < n && m <= k == Split(n) && lo + n <= |d| && 0 < e <= |p| &&
             p[e - 1] == MthRange(h, d, lo + k, n - k)
    requires RootsFromProof(h, m, k, b, oldRoot, p, e - 1) == Claim(MthRange(h, d, lo, m), MthRange(h, d, lo, k))
    ensures RootsFromProof(h, m, n, b, oldRoot, p, e) == Claim(MthRange(h, d, lo, m), MthRange(h, d, lo, n))
  {
  }

  lemma SubproofRight(h: NodeHash, m: nat, d: seq<Digest>, lo: nat, n: nat, b: bool, oldRoot: Digest, p: seq<Digest>,
                      e: nat, k: nat)
    requires 2 <= n && k == Split(n) < m < n && lo + n <= |d| && 0 < e <= |p| && p[e - 1] == MthRange(h, d, lo, k)
    requires RootsFromProof(h, m - k, n - k, false, oldRoot, p, e - 1) ==
             Claim(MthRange(h, d, lo + k, m - k), MthRange(h, d, lo + k, n - k))
    ensures RootsFromProof(h, m, n, b, oldRoot, p, e) == Claim(MthRange(h, d, lo, m), MthRange(h, d, lo, n))
  {
    RangePrefix(h, d, lo, m, n, k);
  }

  ghost predicate IsSubproof(h: NodeHash, m: nat, d: seq<Digest>, lo: nat, n: nat, b: bool, p: seq<Digest>, e: nat)
    requires 1 <= m <= n && lo + n <= |d| && e <= |p|
  {
    p[..e] == SubproofRange(h, m, d, lo, n, b)
  }

  /** The last element of a subproof is the sibling at the top cut. */
  lemma SubproofSplit(h: NodeHash, m: nat, d: seq<Digest>, lo: nat, n: nat, b: bool, p: seq<Digest>, e: nat, k: nat)
    requires 1 <= m < n && k == Split(n) && lo + n <= |d| && e <= |p| && IsSubproof(h, m, d, lo, n, b, p, e)
    ensures e > 0
    ensures m <= k ==> IsSubproof(h, m, d, lo, k, b, p, e - 1) && p[e - 1] == MthRange(h, d, lo + k, n - k)
    ensures m > k ==> IsSubproof(h, m - k, d, lo + k, n - k, false, p, e - 1) && p[e - 1] == MthRange(h, d, lo, k)
  {
    if m <= k {
      SplitSnoc(p, e, SubproofRange(h, m, d, lo, k, b), MthRange(h, d, lo + k, n - k));
    } else {
      SplitSnoc(p, e, SubproofRange(h, m - k, d, lo + k, n - k, false), MthRange(h, d, lo, k));
    }
  }

  lemma SubproofWhole(h: NodeHash, d: seq<Digest>, lo: nat, n: nat, b: bool, oldRoot: Digest, p: seq<Digest>, e: nat)
    requires 1 <= n && lo + n <= |d| && e <= |p| && IsSubproof(h, n, d, lo, n, b, p, e)
    requires b ==> oldRoot == MthRange(h, d, lo, n)
    ensures RootsFromProof(h, n, n, b, oldRoot, p, e) == Claim(MthRange(h, d, lo, n), MthRange(h, d, lo, n))
  {
    assert |p[..e]| == e && (e > 0 ==> p[..e][0] == p[0]);
  }

  lemma {:induction false} SubproofComplete(h: NodeHash, m: nat, d: seq<Digest>, lo: nat, n: nat, b: bool,
                                            oldRoot: Digest,
                                            p: seq<Digest>, e: nat)
    requires 1 <= m <= n && lo + n <= |d| && e <= |p| && IsSubproof(h, m, d, lo, n, b, p, e)
    requires b ==> oldRoot == MthRange(h, d, lo, m)
    ensures RootsFromProof(h, m, n, b, oldRoot, p, e) == Claim(MthRange(h, d, lo, m), MthRange(h, d, lo, n))
    decreases n
  {
    if m == n {
      SubproofWhole(h, d, lo, n, b, oldRoot, p, e);
    } else {
      var k := Split(n);
      if m <= k {
        SubproofSplit(h, m, d, lo, n, b, p, e, k);
        SubproofComplete(h, m, d, lo, k, b, oldRoot, p, e - 1);
        SubproofLeft(h, m, d, lo, n, b, oldRoot, p, e, k);
      } else {
        SubproofSplit(h, m, d, lo, n, b, p, e, k);
        SubproofComplete(h, m - k, d, lo + k, n - k, false, oldRoot, p, e - 1);
        SubproofRight(h, m, d, lo, n, b, oldRoot, p, e, k);
      }
    }
  }

  /** Every generated consistency proof is accepted, whether or not the old size is
      a power of two. */
  lemma ConsistencyComplete(h: NodeHash, m: nat, d: seq<Digest>)
    requires 1 <= m <= |d|
    ensures ConsistencyAccepts(h, m, |d|, Mth(h, d[..m]), Mth(h, d), Proof(h, m, d))
  {
    MthOfPrefix(h, d, m);
    var p := Proof(h, m, d);
    assert p[..|p|] == p;
    SubproofComplete(h, m, d, 0, |d|, true, Mth(h, d[..m]), p, |p|);
  }

  /** The collision between what a consistency proof claims about the new tree and
      what the new tree is. */
  function ProofCollision(h: NodeHash, d: seq<Digest>, m: nat, lo: nat, n: nat, b: bool, oldRoot: Digest,
                          p: seq<Digest>, e: nat)
    : (c: Option<NodeCollision>)
    requires 1 <= m <= n && lo + n <= |d| && e <= |p|
    ensures c.Some? ==> Collides(h, c.value)
    decreases n
  {
    if m == n || e == 0 then None
    else
      var k := Split(n);
      var left, right := MthRange(h, d, lo, k), MthRange(h, d, lo + k, n - k);
      if m <= k then
        match RootsFromProof(h, m, k, b, oldRoot, p, e - 1)
        case NoClaim => None
        case Claim(_, r) => Or(Clash(h, r, p[e - 1], left, right), ProofCollision(h, d, m, lo, k, b, oldRoot, p, e - 1))
      else
        match RootsFromProof(h, m - k, n - k, false, oldRoot, p, e - 1)
        case NoClaim => None
        case Claim(_, r) =>
          Or(Clash(h, p[e - 1], r, left, right), ProofCollision(h, d, m - k, lo + k, n - k, false, oldRoot, p, e - 1))
  }

  /** A proof that claims the right new root is the generated one, and claims the
      right old root. */
  lemma {:induction false} ProofSound(h: NodeHash, d: seq<Digest>, m: nat, lo: nat, n: nat, b: bool, oldRoot: Digest,
                                      p: seq<Digest>, e: nat, c: Claim)
    requires 1 <= m <= n && lo + n <= |d| && e <= |p|
    requires c == RootsFromProof(h, m, n, b, oldRoot, p, e) && c.Claim? && c.now == MthRange(h, d, lo, n)
    requires ProofCollision(h, d, m, lo, n, b, oldRoot, p, e).None?
    ensures c.was == MthRange(h, d, lo, m) && IsSubproof(h, m, d, lo, n, b, p, e)
    decreases n, 1
  {
    if m < n {
      var k := Split(n);
      TakeSnoc(p, e);
      if m <= k {
        ProofSound(h, d, m, lo, k, b, oldRoot, p, e - 1, RootsFromProof(h, m, k, b, oldRoot, p, e - 1));
      } else {
        ProofSoundRight(h, d, m, lo, n, b, oldRoot, p, e, c, k);
      }
    }
  }

  lemma {:induction false} ProofSoundRight(h: NodeHash, d: seq<Digest>, m: nat, lo: nat, n: nat, b: bool,
                                           oldRoot: Digest,
                                           p: seq<Digest>, e: nat, c: Claim, k: nat)
    requires 2 <= n && k == Split(n) < m < n && lo + n <= |d| && 0 < e <= |p|
    requires c == RootsFromProof(h, m, n, b, oldRoot, p, e) && c.Claim? && c.now == MthRange(h, d, lo, n)
    requires ProofCollision(h, d, m, lo, n, b, oldRoot, p, e).None?
    ensures c.was == MthRange(h, d, lo, m) && p[e - 1] == MthRange(h, d, lo, k)
    ensures IsSubproof(h, m - k, d, lo + k, n - k, false, p, e - 1)
    decreases n, 0
  {
    RangePrefix(h, d, lo, m, n, k);
    RangePrefix(h, d, lo, n, n, k);
    var r := RootsFromProof(h, m - k, n - k, false, oldRoot, p, e - 1);
    assert c == InRight(h, r, p[e - 1]);
    ProofSound(h, d, m - k, lo + k, n - k, false, oldRoot, p, e - 1, r);
  }

  /** Where an accepted consistency proof between two lists hides a collision. */
  function ConsistencyCollision(h: NodeHash, was: seq<Digest>, now: seq<Digest>,
                                p: seq<Digest>): (c: Option<NodeCollision>)
    requires 1 <= |was| <= |now|
    ensures c.Some? ==> Collides(h, c.value)
  {
    Or(ProofCollision(h, now, |was|, 0, |now|, true, Mth(h, was), p, |p|), TreeCollision(h, was, now, 0, |was|))
  }

  /** An accepted consistency proof: the old leaves are a prefix of the new ones. */
  lemma ConsistencySound(h: NodeHash, was: seq<Digest>, now: seq<Digest>, p: seq<Digest>)
    requires 1 <= |was| <= |now|
    requires ConsistencyAccepts(h, |was|, |now|, Mth(h, was), Mth(h, now), p)
    ensures (was == now[..|was|] && p == Proof(h, |was|, now)) || ConsistencyCollision(h, was, now, p).Some?
  {
    if ConsistencyCollision(h, was, now, p).None? {
      ProofSound(h, now, |was|, 0, |now|, true, Mth(h, was), p, |p|, Claim(Mth(h, was), Mth(h, now)));
      RangeBindsLeaves(h, was, now, 0, |was|);
      assert p[..|p|] == p;
    }
  }
}
