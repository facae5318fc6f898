/** Whether an accepted inclusion proof comes with a tree. The verifier's documentation
    reads acceptance as "some tree of this size has this root and this leaf at this
    index". The code does not see the siblings' own trees, so the reading holds exactly
    when each listed sibling is the root of some tree of its size, and always when the
    node hash reaches every digest. */
module MerkleTrees {
  import opened Prelude
  import opened Merkle
  import opened MerkleProofs

  /** Some list of n leaves has root x. */
  ghost predicate HasTree(h: NodeHash, n: nat, x: Digest) {
    exists d: seq<Digest> :: IsTree(h, n, x, d)
  }

  predicate IsTree(h: NodeHash, n: nat, x: Digest, d: seq<Digest>) {
    |d| == n >= 1 && Mth(h, d) == x
  }

  /** Every sibling of the path to leaf m of n is the root of some tree of its size. */
  ghost predicate SiblingsHaveTrees(h: NodeHash, m: nat, n: nat, p: seq<Digest>, e: nat)
    requires m < n && e <= |p|
    decreases n
  {
    n == 1 ||
    (e > 0 &&
     var k := Split(n);
     if m < k then HasTree(h, n - k, p[e - 1]) && SiblingsHaveTrees(h, m, k, p, e - 1)
     else HasTree(h, k, p[e - 1]) && SiblingsHaveTrees(h, m - k, n - k, p, e - 1))
  }

  lemma {:induction false} MthRangeShift(h: NodeHash, a: seq<Digest>, lo: nat, b: seq<Digest>, lo': nat, n: nat)
    requires n >= 1 && lo + n <= |a| && lo' + n <= |b| && a[lo..lo + n] == b[lo'..lo' + n]
    ensures MthRange(h, a, lo, n) == MthRange(h, b, lo', n)
    decreases n
  {
    if n == 1 {
      assert a[lo] == a[lo..lo + n][0] == b[lo'..lo' + n][0];
    } else {
      var k := Split(n);
      assert a[lo..lo + k] == a[lo..lo + n][..k] == b[lo'..lo' + k];
      assert a[lo + k..lo + n] == a[lo..lo + n][k..] == b[lo' + k..lo' + n];
      MthRangeShift(h, a, lo, b, lo', k);
      MthRangeShift(h, a, lo + k, b, lo' + k, n - k);
    }
  }

  /** Two trees side by side, cut where the size says. */
  lemma JoinTrees(h: NodeHash, a: seq<Digest>, b: seq<Digest>)
    requires |a| >= 1 && |b| >= 1 && Split(|a| + |b|) == |a|
    ensures Mth(h, a + b) == h(Mth(h, a), Mth(h, b))
  {
    var d := a + b;
    assert d[0..|a|] == a[0..|a|] && d[|a|..|d|] == b[0..|b|];
    MthRangeShift(h, d, 0, a, 0, |a|);
    MthRangeShift(h, d, |a|, b, 0, |b|);
  }

  /** The siblings' trees and the leaf make up a whole tree. */
  lemma {:induction false} SiblingsMakeATree(h: NodeHash, leaf: Digest, m: nat, n: nat, p: seq<Digest>, e: nat)
    returns (d: seq<Digest>)
    requires m < n && e <= |p| && RootFromPath(h, leaf, m, n, p, e).Some? && SiblingsHaveTrees(h, m, n, p, e)
    ensures |d| == n && d[m] == leaf && Some(Mth(h, d)) == RootFromPath(h, leaf, m, n, p, e)
    decreases n
  {
    if n == 1 {
      d := [leaf];
    } else {
      var k := Split(n);
      if m < k {
        var a := SiblingsMakeATree(h, leaf, m, k, p, e - 1);
        var b: seq<Digest> :| IsTree(h, n - k, p[e - 1], b);
        JoinTrees(h, a, b);
        d := a + b;
      } else {
        var a: seq<Digest> :| IsTree(h, k, p[e - 1], a);
        var b := SiblingsMakeATree(h, leaf, m - k, n - k, p, e - 1);
        JoinTrees(h, a, b);
        d := a + b;
      }
    }
  }

  lemma RangeHasTree(h: NodeHash, d: seq<Digest>, lo: nat, n: nat)
    requires n >= 1 && lo + n <= |d|
    ensures HasTree(h, n, MthRange(h, d, lo, n))
  {
    var part := d[lo..lo + n];
    MthRangeShift(h, d, lo, part, 0, n);
    assert IsTree(h, n, MthRange(h, d, lo, n), part);
  }

  ghost predicate IsPath(h: NodeHash, m: nat, d: seq<Digest>, lo: nat, n: nat, p: seq<Digest>, e: nat)
    requires m < n && lo + n <= |d| && e <= |p|
  {
    p[..e] == PathRange(h, m, d, lo, n)
  }

  /** The last element of a path is the sibling at the top cut. */
  lemma PathSplit(h: NodeHash, m: nat, d: seq<Digest>, lo: nat, n: nat, p: seq<Digest>, e: nat, k: nat)
    requires m < n && 2 <= n && lo + n <= |d| && e <= |p| && k == Split(n) && IsPath(h, m, d, lo, n, p, e)
    ensures e > 0
    ensures m < k ==> IsPath(h, m, d, lo, k, p, e - 1) && p[e - 1] == MthRange(h, d, lo + k, n - k)
    ensures m >= k ==> IsPath(h, m - k, d, lo + k, n - k, p, e - 1) && p[e - 1] == MthRange(h, d, lo, k)
  {
    if m < k {
      SplitSnoc(p, e, PathRange(h, m, d, lo, k), MthRange(h, d, lo + k, n - k));
    } else {
      SplitSnoc(p, e, PathRange(h, m - k, d, lo + k, n - k), MthRange(h, d, lo, k));
    }
  }

  lemma OneMoreSibling(h: NodeHash, m: nat, n: nat, p: seq<Digest>, e: nat, k: nat)
    requires m < n && 2 <= n && 0 < e <= |p| && k == Split(n)
    requires m < k ==> HasTree(h, n - k, p[e - 1]) && SiblingsHaveTrees(h, m, k, p, e - 1)
    requires m >= k ==> HasTree(h, k, p[e - 1]) && SiblingsHaveTrees(h, m - k, n - k, p, e - 1)
    ensures SiblingsHaveTrees(h, m, n, p, e)
  {
  }

  lemma {:induction false} PathHasTrees(h: NodeHash, m: nat, d: seq<Digest>, lo: nat, n: nat, p: seq<Digest>, e: nat)
    requires m < n && lo + n <= |d| && e <= |p| && IsPath(h, m, d, lo, n, p, e)
    ensures SiblingsHaveTrees(h, m, n, p, e)
    decreases n
  {
    if n > 1 {
      var k := Split(n);
      PathSplit(h, m, d, lo, n, p, e, k);
      if m < k {
        RangeHasTree(h, d, lo + k, n - k);
        PathHasTrees(h, m, d, lo, k, p, e - 1);
      } else {
        RangeHasTree(h, d, lo, k);
        PathHasTrees(h, m - k, d, lo + k, n - k, p, e - 1);
      }
      OneMoreSibling(h, m, n, p, e, k);
    }
  }

  /** The documented reading, exactly: an accepted proof comes with a tree if its
      siblings have trees; and a tree it comes with gives them, or a collision. */
  lemma AcceptedMeansATreeIff(h: NodeHash, leaf: Digest, m: nat, n: nat, root: Digest, p: seq<Digest>)
    requires InclusionAccepts(h, leaf, m, n, root, p)
    ensures SiblingsHaveTrees(h, m, n, p, |p|) ==>
            exists d: seq<Digest> :: |d| == n && d[m] == leaf && Mth(h, d) == root
    ensures forall d: seq<Digest> | |d| == n && d[m] == leaf && Mth(h, d) == root ::
              SiblingsHaveTrees(h, m, n, p, |p|) || PathCollision(h, leaf, m, d, 0, n, p, |p|).Some?
  {
    if SiblingsHaveTrees(h, m, n, p, |p|) {
      var d := SiblingsMakeATree(h, leaf, m, n, p, |p|);
      assert |d| == n && d[m] == leaf && Mth(h, d) == root;
    }
    forall d: seq<Digest> | |d| == n && d[m] == leaf && Mth(h, d) == root
      ensures SiblingsHaveTrees(h, m, n, p, |p|) || PathCollision(h, leaf, m, d, 0, n, p, |p|).Some?
    {
      InclusionSound(h, leaf, m, d, p);
      if PathCollision(h, leaf, m, d, 0, n, p, |p|).None? {
        assert p[..|p|] == p;
        PathHasTrees(h, m, d, 0, n, p, |p|);
      }
    }
  }

  ghost predicate HasChildren(h: NodeHash, x: Digest) {
    exists l, r :: h(l, r) == x
  }

  /** Every digest is the hash of some pair. */
  ghost predicate Onto(h: NodeHash) {
    forall x :: HasChildren(h, x)
  }

  lemma {:induction false} OntoHasTree(h: NodeHash, n: nat, x: Digest)
    requires Onto(h) && n >= 1
    ensures HasTree(h, n, x)
    decreases n
  {
    if n == 1 {
      assert IsTree(h, 1, x, [x]);
    } else {
      var k := Split(n);
      assert HasChildren(h, x);
      var l, r :| h(l, r) == x;
      OntoHasTree(h, k, l);
      OntoHasTree(h, n - k, r);
      var a: seq<Digest> :| IsTree(h, k, l, a);
      var b: seq<Digest> :| IsTree(h, n - k, r, b);
      JoinTrees(h, a, b);
      assert IsTree(h, n, x, a + b);
    }
  }

  lemma {:induction false} OntoSiblings(h: NodeHash, leaf: Digest, m: nat, n: nat, p: seq<Digest>, e: nat)
    requires Onto(h) && m < n && e <= |p| && RootFromPath(h, leaf, m, n, p, e).Some?
    ensures SiblingsHaveTrees(h, m, n, p, e)
    decreases n
  {
    if n > 1 {
      var k := Split(n);
      if m < k {
        OntoHasTree(h, n - k, p[e - 1]);
        OntoSiblings(h, leaf, m, k, p, e - 1);
      } else {
        OntoHasTree(h, k, p[e - 1]);
        OntoSiblings(h, leaf, m - k, n - k, p, e - 1);
      }
    }
  }

  /** For a node hash that reaches every digest, acceptance means a tree, at every size. */
  lemma AcceptedMeansATree(h: NodeHash, leaf: Digest, m: nat, n: nat, root: Digest, p: seq<Digest>)
    requires Onto(h) && InclusionAccepts(h, leaf, m, n, root, p)
    ensures exists d: seq<Digest> :: |d| == n && d[m] == leaf && Mth(h, d) == root
  {
    OntoSiblings(h, leaf, m, n, p, |p|);
    AcceptedMeansATreeIff(h, leaf, m, n, root, p);
  }

  // That the hash reaches every digest cannot be dropped: for one that does not, the
  // reading fails at every index and size with a sibling of more than one leaf.

  predicate EverySiblingIsALeaf(m: nat, n: nat) {
    n <= 2 || (n == 3 && m < 2)
  }

  const MAX_WORD: int := 0xFFFF_FFFF_FFFF_FFFF

  function Count(x: nat): Digest
    requires x <= MAX_WORD
  {
    Digest(x as Word, 0, 0, 0, 0, 0)
  }

  /** A node hash that counts: one more than the sum of the children's first words. */
  function SumHash(l: Digest, r: Digest): Digest {
    Count(Min(l.w0 as int + r.w0 as int + 1, MAX_WORD))
  }

  lemma {:induction false} SumHashCountsNodes(d: seq<Digest>, lo: nat, n: nat)
    requires n >= 1 && lo + n <= |d|
    ensures MthRange(SumHash, d, lo, n).w0 as int >= Min(n - 1, MAX_WORD)
    decreases n
  {
    if n > 1 {
      var k := Split(n);
      SumHashCountsNodes(d, lo, k);
      SumHashCountsNodes(d, lo + k, n - k);
    }
  }

  /** How many siblings an inclusion proof lists. */
  function PathLength(m: nat, n: nat): (e: nat)
    requires m < n
    ensures e < n
    ensures !EverySiblingIsALeaf(m, n) ==> e < n - 1
    decreases n
  {
    if n == 1 then 0
    else
      var k := Split(n);
      assert n == 4 ==> k == 2 by {
        assert SplitFrom(1, 4) == SplitFrom(2, 4) == 2;
      }
      1 + if m < k then PathLength(m, k) else PathLength(m - k, n - k)
  }

  lemma SumWithZero(e: nat)
    requires e < MAX_WORD
    ensures SumHash(Count(e), Count(0)) == SumHash(Count(0), Count(e)) == Count(e + 1)
  {
  }

  lemma {:induction false} ZerosClaim(m: nat, n: nat, p: seq<Digest>)
    requires m < n <= MAX_WORD + 1 && PathLength(m, n) <= |p|
    requires forall i | 0 <= i < |p| :: p[i] == Count(0)
    ensures RootFromPath(SumHash, Count(0), m, n, p, PathLength(m, n)) == Some(Count(PathLength(m, n)))
    decreases n
  {
    if n > 1 {
      var k := Split(n);
      SumWithZero(PathLength(m, n) - 1);
      if m < k {
        ZerosClaim(m, k, p);
      } else {
        ZerosClaim(m - k, n - k, p);
      }
    }
  }

  lemma OntoIsNeeded(m: nat, n: nat)
    requires m < n <= MAX_WORD && !EverySiblingIsALeaf(m, n)
    ensures var e := PathLength(m, n);
            && InclusionAccepts(SumHash, Count(0), m, n, Count(e), seq(e, _ => Count(0)))
            && forall d: seq<Digest> | |d| == n :: Mth(SumHash, d) != Count(e)
  {
    ZerosClaim(m, n, seq(PathLength(m, n), _ => Count(0)));
    forall d: seq<Digest> | |d| == n
      ensures Mth(SumHash, d) != Count(PathLength(m, n))
    {
      SumHashCountsNodes(d, 0, n);
    }
  }
}
