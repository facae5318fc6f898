/** The two verifiers: loops that shift a pair of integers and consume the proof
    from the bottom (the algorithms of sections 2.1.3.2 and 2.1.4.2 of RFC 9162),
    proved to decide exactly what the proof says when it is read from the root. */
module MerkleVerify {
  import opened Prelude
  import opened Merkle

  function Pow2(n: nat): (r: nat)
    ensures r >= 1
  {
    if n == 0 then 1 else 2 * Pow2(n - 1)
  }

  lemma {:induction false} Pow2Covers(s: nat)
    ensures s < Pow2(s)
  {
    if s > 0 {
      Pow2Covers(s - 1);
    }
  }

  /** A row that overflows 2^l nodes, but not 2^(l+1), is cut after 2^l nodes. */
  lemma SplitAtLevel(l: nat, s: nat)
    requires Pow2(l) <= s < 2 * Pow2(l)
    ensures s >= 1 && Split(s + 1) == Pow2(l)
  {
    SplitFromLevel(0, l, s);
  }

  lemma {:induction false} SplitFromLevel(j: nat, l: nat, s: nat)
    requires j <= l && Pow2(l) <= s < 2 * Pow2(l) && Pow2(j) <= s
    ensures SplitFrom(Pow2(j), s + 1) == Pow2(l)
    decreases l - j
  {
    if j < l {
      Pow2Mono(j + 1, l);
      SplitFromLevel(j + 1, l, s);
    }
  }

  lemma {:induction false} Pow2Mono(j: nat, l: nat)
    requires j <= l
    ensures Pow2(j) <= Pow2(l)
    decreases l - j
  {
    if j < l {
      Pow2Mono(j + 1, l);
    }
  }

  /** One climb from node f of the row 0..s to the root with the siblings p[i..e],
      carrying the root of everything up to f (`lo`) and of everything (`hi`).
      The row is part of a complete row of 2^l nodes. */
  function Climb(h: NodeHash, l: nat, f: nat, s: nat, lo: Digest, hi: Digest, p: seq<Digest>, i: nat, e: nat)
    : Claim
    requires f <= s < Pow2(l) && i <= e <= |p|
    decreases l
  {
    if s == 0 then if i == e then Claim(lo, hi) else NoClaim
    else
      var k := Pow2(l - 1);
      if s < k then Climb(h, l - 1, f, s, lo, hi, p, i, e)
      else if i == e then NoClaim
      else if f < k then
        InLeft(h, Climb(h, l - 1, f, k - 1, lo, hi, p, i, e - 1), p[e - 1])
      else
        InRight(h, Climb(h, l - 1, f - k, s - k, lo, hi, p, i, e - 1), p[e - 1])
  }

  /** The upper half of a climb is an inclusion path. */
  lemma {:induction false} ClimbIsPath(h: NodeHash, l: nat, f: nat, s: nat, lo: Digest, hi: Digest, p: seq<Digest>,
                                       e: nat)
    requires f <= s < Pow2(l) && e <= |p|
    ensures RootFromPath(h, hi, f, s + 1, p, e) ==
            match Climb(h, l, f, s, lo, hi, p, 0, e) { case NoClaim => None case Claim(_, r) => Some(r) }
    decreases l
  {
    if s > 0 {
      var k := Pow2(l - 1);
      if s < k {
        ClimbIsPath(h, l - 1, f, s, lo, hi, p, e);
      } else {
        SplitAtLevel(l - 1, s);
        if e > 0 {
          if f < k {
            ClimbIsPath(h, l - 1, f, k - 1, lo, hi, p, e - 1);
          } else {
            ClimbIsPath(h, l - 1, f - k, s - k, lo, hi, p, e - 1);
          }
        }
      }
    }
  }

  lemma {:induction false} ClimbNeedsProof(h: NodeHash, l: nat, f: nat, s: nat, lo: Digest, hi: Digest,
                                           p: seq<Digest>, e: nat)
    requires 1 <= s < Pow2(l) && f <= s && e <= |p|
    ensures Climb(h, l, f, s, lo, hi, p, e, e) == NoClaim
    decreases l
  {
    if s < Pow2(l - 1) {
      ClimbNeedsProof(h, l - 1, f, s, lo, hi, p, e);
    }
  }

  /** One sibling is not enough for a row that reaches past the middle. */
  lemma ClimbNeedsMore(h: NodeHash, l: nat, f: nat, s: nat, c: nat, lo: Digest, hi: Digest, p: seq<Digest>, i: nat)
    requires l >= 2 && c == Pow2(l - 2) && f <= s < Pow2(l) && 2 * c <= s && i < |p| && !(f == s == 2 * c)
    ensures Climb(h, l, f, s, lo, hi, p, i, i + 1) == NoClaim
  {
    var m := if f < 2 * c then 2 * c - 1 else s - 2 * c;
    ClimbNeedsProof(h, l - 1, if f < 2 * c then f else f - 2 * c, m, lo, hi, p, i);
  }

  /** A right node 2g + 1: its left sibling is the next proof element, and the
      climb goes on from the row above. */
  lemma {:induction false} ClimbOdd(h: NodeHash, l: nat, f: nat, g: nat, s: nat, t: nat, lo: Digest, hi: Digest,
                                    p: seq<Digest>, i: nat, e: nat)
    requires l >= 1 && f == 2 * g + 1 <= s < Pow2(l) && 2 * t <= s <= 2 * t + 1 && i < e <= |p|
    ensures g <= t < Pow2(l - 1)
    ensures Climb(h, l, f, s, lo, hi, p, i, e) == Climb(h, l - 1, g, t, h(p[i], lo), h(p[i], hi), p, i + 1, e)
    decreases l
  {
    if l >= 2 {
      var c := Pow2(l - 2);
      if t < c {
        ClimbOdd(h, l - 1, f, g, s, t, lo, hi, p, i, e);
      } else if i + 1 == e {
        ClimbNeedsMore(h, l, f, s, c, lo, hi, p, i);
      } else if g < c {
        ClimbOdd(h, l - 1, f, g, 2 * c - 1, c - 1, lo, hi, p, i, e - 1);
      } else {
        ClimbOdd(h, l - 1, f - 2 * c, g - c, s - 2 * c, t - c, lo, hi, p, i, e - 1);
      }
    }
  }

  /** A left node 2g with a right sibling. */
  lemma {:induction false} ClimbEven(h: NodeHash, l: nat, f: nat, g: nat, s: nat, t: nat, lo: Digest, hi: Digest,
                                     p: seq<Digest>, i: nat, e: nat)
    requires l >= 1 && f == 2 * g < s < Pow2(l) && 2 * t <= s <= 2 * t + 1 && i < e <= |p|
    ensures g <= t < Pow2(l - 1)
    ensures Climb(h, l, f, s, lo, hi, p, i, e) == Climb(h, l - 1, g, t, lo, h(hi, p[i]), p, i + 1, e)
    decreases l
  {
    if l >= 2 {
      var c := Pow2(l - 2);
      if t < c {
        ClimbEven(h, l - 1, f, g, s, t, lo, hi, p, i, e);
      } else if i + 1 == e {
        ClimbNeedsMore(h, l, f, s, c, lo, hi, p, i);
      } else if g < c {
        ClimbEven(h, l - 1, f, g, 2 * c - 1, c - 1, lo, hi, p, i, e - 1);
      } else {
        ClimbEven(h, l - 1, f - 2 * c, g - c, s - 2 * c, t - c, lo, hi, p, i, e - 1);
      }
    }
  }

  /** The last node of an odd row has no sibling and moves up as it is. */
  lemma {:induction false} ClimbPromote(h: NodeHash, l: nat, f: nat, g: nat, lo: Digest, hi: Digest, p: seq<Digest>,
                                        i: nat, e: nat)
    requires l >= 1 && 1 <= g && f == 2 * g < Pow2(l) && i <= e <= |p|
    ensures g < Pow2(l - 1)
    ensures Climb(h, l, f, f, lo, hi, p, i, e) == Climb(h, l - 1, g, g, lo, hi, p, i, e)
    decreases l
  {
    if l >= 2 {
      var c := Pow2(l - 2);
      if g < c {
        ClimbPromote(h, l - 1, f, g, lo, hi, p, i, e);
      } else if c < g && i < e {
        ClimbPromote(h, l - 1, f - 2 * c, g - c, lo, hi, p, i, e - 1);
      }
    }
  }

  method VerifyInclusion(h: NodeHash, leaf: Digest, leafIndex: nat, treeSize: nat, root: Digest, proof: seq<Digest>)
    returns (ok: bool)
    ensures ok <==> InclusionAccepts(h, leaf, leafIndex, treeSize, root, proof)
  {
    if leafIndex >= treeSize {
      return false;
    }
    var fn: nat, sn: nat, r, j := leafIndex, treeSize - 1, leaf, 0;
    ghost var l, lo, e := sn, leaf, |proof|;
    Pow2Covers(sn);
    ghost var want := Climb(h, l, fn, sn, lo, r, proof, 0, e);
    ClimbIsPath(h, l, fn, sn, lo, r, proof, e);
    while sn > 0
      invariant fn <= sn < Pow2(l) && j <= e
      invariant Climb(h, l, fn, sn, lo, r, proof, j, e) == want
      decreases sn
    {
      if j == |proof| {
        ClimbNeedsProof(h, l, fn, sn, lo, r, proof, e);
        return false;
      }
      var p := proof[j];
      if fn % 2 != 0 || fn == sn {
        ghost var r0, lo0 := r, lo;
        r := h(p, r);
        lo := h(p, lo);
        if fn % 2 == 0 {
          while fn % 2 == 0
            invariant 0 < fn == sn < Pow2(l)
            invariant Climb(h, l, fn, sn, lo0, r0, proof, j, e) == want
            decreases fn
          {
            ClimbPromote(h, l, fn, fn / 2, lo0, r0, proof, j, e);
            fn, sn, l := fn / 2, sn / 2, l - 1;
          }
        }
        ClimbOdd(h, l, fn, fn / 2, sn, sn / 2, lo0, r0, proof, j, e);
      } else {
        ClimbEven(h, l, fn, fn / 2, sn, sn / 2, lo, r, proof, j, e);
        r := h(r, p);
      }
      fn, sn, l, j := fn / 2, sn / 2, l - 1, j + 1;
    }
    ok := j == |proof| && r == root;
  }

  // ---------------------------------------------------------------- consistency

  /** The claim of the consistency proof p[..e] about sizes m and n, with the cuts
      written as powers of two (n leaves fit under a root of height l). */
  function Roots(h: NodeHash, l: nat, m: nat, n: nat, b: bool, oldRoot: Digest, p: seq<Digest>, e: nat)
    : Claim
    requires 1 <= m <= n <= Pow2(l) && e <= |p|
    decreases l
  {
    if m == n then
      if b then if e == 0 then Claim(oldRoot, oldRoot) else NoClaim
      else if e == 1 then Claim(p[0], p[0]) else NoClaim
    else
      var k := Pow2(l - 1);
      if n <= k then Roots(h, l - 1, m, n, b, oldRoot, p, e)
      else if e == 0 then NoClaim
      else if m <= k then
        InLeft(h, Roots(h, l - 1, m, k, b, oldRoot, p, e - 1), p[e - 1])
      else
        InRight(h, Roots(h, l - 1, m - k, n - k, false, oldRoot, p, e - 1), p[e - 1])
  }

  lemma {:induction false} RootsAreClaimed(h: NodeHash, l: nat, m: nat, n: nat, b: bool, oldRoot: Digest,
                                           p: seq<Digest>, e: nat)
    requires 1 <= m <= n <= Pow2(l) && e <= |p|
    ensures RootsFromProof(h, m, n, b, oldRoot, p, e) == Roots(h, l, m, n, b, oldRoot, p, e)
    decreases l
  {
    if m < n {
      var k := Pow2(l - 1);
      if n <= k {
        RootsAreClaimed(h, l - 1, m, n, b, oldRoot, p, e);
      } else {
        SplitAtLevel(l - 1, n - 1);
        if e > 0 {
          if m <= k {
            RootsAreClaimed(h, l - 1, m, k, b, oldRoot, p, e - 1);
          } else {
            RootsAreClaimed(h, l - 1, m - k, n - k, false, oldRoot, p, e - 1);
          }
        }
      }
    }
  }

  /** While the old size m is even its last two nodes pair up: halve both sizes. */
  lemma {:induction false} RootsHalve(h: NodeHash, l: nat, m: nat, a: nat, n: nat, c: nat, b: bool, oldRoot: Digest,
                                      p: seq<Digest>, e: nat)
    requires 1 <= m == 2 * a <= n <= Pow2(l) && 2 * c - 1 <= n <= 2 * c && e <= |p|
    requires m < n || n == 2 * c
    ensures l >= 1 && a <= c <= Pow2(l - 1)
    ensures Roots(h, l, m, n, b, oldRoot, p, e) == Roots(h, l - 1, a, c, b, oldRoot, p, e)
    decreases l
  {
    if m < n {
      var j := Pow2(l - 2);
      if c <= j {
        RootsHalve(h, l - 1, m, a, n, c, b, oldRoot, p, e);
      } else if e > 0 {
        if a <= j {
          RootsHalve(h, l - 1, m, a, 2 * j, j, b, oldRoot, p, e - 1);
        } else {
          RootsHalve(h, l - 1, m - 2 * j, a - j, n - 2 * j, c - j, false, oldRoot, p, e - 1);
        }
      }
    }
  }

  /** Once the last old node f is even, what remains is one climb from it: from the
      old root itself when that is a whole subtree, else from the first proof
      element. */
  lemma {:induction false} RootsAreClimb(h: NodeHash, l: nat, f: nat, s: nat, b: bool, oldRoot: Digest,
                                         p: seq<Digest>, e: nat)
    requires f <= s < Pow2(l) && f % 2 == 0 && e <= |p|
    requires f < s || s == 0
    ensures b && f == 0 ==>
              Roots(h, l, f + 1, s + 1, b, oldRoot, p, e) == Climb(h, l, f, s, oldRoot, oldRoot, p, 0, e)
    ensures !(b && f == 0) && e == 0 ==> Roots(h, l, f + 1, s + 1, b, oldRoot, p, e) == NoClaim
    ensures !(b && f == 0) && e > 0 ==>
              Roots(h, l, f + 1, s + 1, b, oldRoot, p, e) == Climb(h, l, f, s, p[0], p[0], p, 1, e)
    decreases l
  {
    if f < s {
      var k := Pow2(l - 1);
      if s < k {
        RootsAreClimb(h, l - 1, f, s, b, oldRoot, p, e);
      } else if e > 0 {
        if f < k {
          RootsAreClimb(h, l - 1, f, k - 1, b, oldRoot, p, e - 1);
        } else {
          RootsAreClimb(h, l - 1, f - k, s - k, false, oldRoot, p, e - 1);
        }
      }
    }
  }

  /** Shifting both sizes has lost nothing of what the proof claims. */
  ghost predicate Aligning(h: NodeHash, oldSize: nat, f: nat, s: nat, l: nat, oldRoot: Digest, p: seq<Digest>,
                           want: Claim) {
    && f < s < Pow2(l) && (IsPow2(oldSize) <==> IsPow2(f + 1))
    && Roots(h, l, f + 1, s + 1, true, oldRoot, p, |p|) == want
  }

  lemma AlignStep(h: NodeHash, oldSize: nat, f: nat, s: nat, l: nat, oldRoot: Digest, p: seq<Digest>, want: Claim)
    requires Aligning(h, oldSize, f, s, l, oldRoot, p, want) && f % 2 == 1
    ensures l >= 1 && Aligning(h, oldSize, f / 2, s / 2, l - 1, oldRoot, p, want)
  {
    var g, t := f / 2, s / 2;
    assert f == 2 * g + 1 && 2 * t <= s <= 2 * t + 1;
    RootsHalve(h, l, f + 1, g + 1, s + 1, t + 1, true, oldRoot, p, |p|);
    IsPow2Halved(f, g);
  }

  /** The first loop of the consistency verifier: shift until the last old node
      is a left node. */
  method AlignOld(h: NodeHash, oldSize: nat, newSize: nat, ghost oldRoot: Digest, ghost proof: seq<Digest>,
                  ghost l0: nat, ghost want: Claim)
    returns (fn: nat, sn: nat, ghost l: nat)
    requires 1 <= oldSize < newSize <= Pow2(l0)
    requires Roots(h, l0, oldSize, newSize, true, oldRoot, proof, |proof|) == want
    ensures fn < sn < Pow2(l) && fn % 2 == 0
    ensures IsPow2(oldSize) <==> fn == 0
    ensures Roots(h, l, fn + 1, sn + 1, true, oldRoot, proof, |proof|) == want
  {
    fn, sn, l := oldSize - 1, newSize - 1, l0;
    while fn % 2 == 1
      invariant Aligning(h, oldSize, fn, sn, l, oldRoot, proof, want)
      decreases fn
    {
      AlignStep(h, oldSize, fn, sn, l, oldRoot, proof, want);
      fn, sn, l := fn / 2, sn / 2, l - 1;
    }
  }

  lemma IsPow2Halved(f: nat, g: nat)
    requires f == 2 * g + 1
    ensures IsPow2(f + 1) == IsPow2(g + 1)
  {
    assert (f + 1) / 2 == g + 1;
  }

  method VerifyConsistency(h: NodeHash, oldSize: nat, newSize: nat, oldRoot: Digest, newRoot: Digest,
                           proof: seq<Digest>)
    returns (ok: bool)
    ensures ok <==> ConsistencyAccepts(h, oldSize, newSize, oldRoot, newRoot, proof)
  {
    if oldSize == 0 || oldSize > newSize {
      return false;
    }
    if oldSize == newSize {
      return proof == [] && oldRoot == newRoot;
    }
    var fr, sr, j;
    if IsPow2(oldSize) && oldSize <= newSize {
      fr, sr, j := oldRoot, oldRoot, 0;
    } else {
      if proof == [] {
        return false;
      }
      fr, sr, j := proof[0], proof[0], 1;
    }
    ghost var l0, e, want := newSize - 1, |proof|, RootsFromProof(h, oldSize, newSize, true, oldRoot, proof, |proof|);
    Pow2Covers(l0);
    RootsAreClaimed(h, l0, oldSize, newSize, true, oldRoot, proof, e);
    var fn: nat, sn: nat, l := AlignOld(h, oldSize, newSize, oldRoot, proof, l0, want);
    RootsAreClimb(h, l, fn, sn, true, oldRoot, proof, e);
    while sn > 0
      invariant fn <= sn < Pow2(l) && j <= e
      invariant Climb(h, l, fn, sn, fr, sr, proof, j, e) == want
      decreases sn
    {
      if j == |proof| {
        ClimbNeedsProof(h, l, fn, sn, fr, sr, proof, e);
        return false;
      }
      var c := proof[j];
      if fn % 2 != 0 || fn == sn {
        ghost var fr0, sr0 := fr, sr;
        fr := h(c, fr);
        sr := h(c, sr);
        if fn % 2 == 0 {
          while fn % 2 == 0 && fn != 0
            invariant 0 < fn == sn < Pow2(l)
            invariant Climb(h, l, fn, sn, fr0, sr0, proof, j, e) == want
            decreases fn
          {
            ClimbPromote(h, l, fn, fn / 2, fr0, sr0, proof, j, e);
            fn, sn, l := fn / 2, sn / 2, l - 1;
          }
        }
        ClimbOdd(h, l, fn, fn / 2, sn, sn / 2, fr0, sr0, proof, j, e);
      } else {
        ClimbEven(h, l, fn, fn / 2, sn, sn / 2, fr, sr, proof, j, e);
        sr := h(sr, c);
      }
      fn, sn, l, j := fn / 2, sn / 2, l - 1, j + 1;
    }
    ok := j == |proof| && fr == oldRoot && sr == newRoot;
  }
}
