/** Recomputing the aggregate PCR digest from the selection bitmaps of a quote. */
module PcrDigest {
  import opened Prelude
  import opened Tpm

  /** `byte & (1 << bit) != 0`. */
  predicate BitOf(byte: nat, bit: nat) {
    if bit == 0 then byte % 2 == 1 else BitOf(byte / 2, bit - 1)
  }

  const WEIGHTS: seq<nat> := [1, 2, 4, 8, 16, 32, 64, 128]

  lemma HalfThenWeight(byte: nat, bit: nat)
    requires 0 < bit < 8
    ensures byte / 2 / WEIGHTS[bit - 1] == byte / WEIGHTS[bit]
  {
    assert bit == 1 || bit == 2 || bit == 3 || bit == 4 || bit == 5 || bit == 6 || bit == 7;
  }

  /** Bit i of a byte is its digit of weight 2^i. */
  lemma {:induction false} BitIsWeight(byte: nat, bit: nat)
    requires bit < 8
    ensures BitOf(byte, bit) <==> byte / WEIGHTS[bit] % 2 == 1
  {
    if bit > 0 {
      BitIsWeight(byte / 2, bit - 1);
      HalfThenWeight(byte, bit);
    }
  }

  /** Bit i of a bitmap, least significant bit first within each byte. */
  predicate BitSet(bitmap: Bytes, i: nat) {
    i < 8 * |bitmap| && BitOf(bitmap[i / 8] as nat, i % 8)
  }

  /** The set bits among the lowest `bits` of byte k that fit a u8, in ascending order. */
  function IndicesOfByte(byte: Byte, k: nat, bits: nat): seq<nat>
    requires bits <= 8
  {
    if bits == 0 then []
    else
      var rest, i := IndicesOfByte(byte, k, bits - 1), 8 * k + bits - 1;
      if BitOf(byte as nat, bits - 1) && i < 256 then rest + [i] else rest
  }

  /** The selected indices of the first k bytes. */
  function Indices(bitmap: Bytes, k: nat): seq<nat>
    requires k <= |bitmap|
  {
    if k == 0 then [] else Indices(bitmap, k - 1) + IndicesOfByte(bitmap[k - 1], k - 1, 8)
  }

  function SelectedIn(sel: PcrSelection): seq<nat> {
    Indices(sel.bitmap, |sel.bitmap|)
  }

  method SelectedIndices(sel: PcrSelection) returns (out: seq<nat>)
    ensures out == SelectedIn(sel)
  {
    out := [];
    for k := 0 to |sel.bitmap|
      invariant out == Indices(sel.bitmap, k)
    {
      var byte := sel.bitmap[k];
      ghost var before := out;
      for bit := 0 to 8
        invariant out == before + IndicesOfByte(byte, k, bit)
      {
        if BitOf(byte as nat, bit) {
          if k * 8 + bit < 256 {
            out := out + [k * 8 + bit];
          }
        }
      }
    }
  }

  lemma {:induction false} ByteIndexIff(byte: Byte, k: nat, bits: nat, i: nat)
    requires bits <= 8
    ensures i in IndicesOfByte(byte, k, bits) <==> 8 * k <= i < 8 * k + bits && i < 256 && BitOf(byte as nat, i - 8 * k)
  {
    if bits > 0 {
      ByteIndexIff(byte, k, bits - 1, i);
    }
  }

  /** The selected indices are exactly the set bits below 256. */
  lemma {:induction false} IndexIff(bitmap: Bytes, k: nat, i: nat)
    requires k <= |bitmap|
    ensures i in Indices(bitmap, k) <==> i < 8 * k && i < 256 && BitSet(bitmap, i)
  {
    if k > 0 {
      IndexIff(bitmap, k - 1, i);
      ByteIndexIff(bitmap[k - 1], k - 1, 8, i);
      if 8 * (k - 1) <= i < 8 * k {
        ByteOfIndex(i, k - 1);
      }
    }
  }

  lemma ByteOfIndex(i: nat, k: nat)
    requires 8 * k <= i < 8 * k + 8
    ensures i / 8 == k && i % 8 == i - 8 * k
  {
  }

  ghost predicate Ascending(s: seq<nat>) {
    forall a, b | 0 <= a < b < |s| :: s[a] < s[b]
  }

  ghost predicate Within(s: seq<nat>, lo: nat, hi: nat) {
    forall a | 0 <= a < |s| :: lo <= s[a] < hi
  }

  lemma {:induction false} ByteAscending(byte: Byte, k: nat, bits: nat)
    requires bits <= 8
    ensures Ascending(IndicesOfByte(byte, k, bits)) && Within(IndicesOfByte(byte, k, bits), 8 * k, 8 * k + bits)
  {
    if bits > 0 {
      ByteAscending(byte, k, bits - 1);
    }
  }

  /** They are listed once each, in ascending order. */
  lemma {:induction false} IndicesAscending(bitmap: Bytes, k: nat)
    requires k <= |bitmap|
    ensures Ascending(Indices(bitmap, k)) && Within(Indices(bitmap, k), 0, 8 * k)
  {
    if k > 0 {
      IndicesAscending(bitmap, k - 1);
      ByteAscending(bitmap[k - 1], k - 1, 8);
    }
  }

  // ------------------------------------------------------------------ the digest

  /** Every index hashed: those of the SHA-384 selections, in the order listed. */
  function AllSelected(sels: seq<PcrSelection>, k: nat): seq<nat>
    requires k <= |sels|
  {
    if k == 0 then []
    else if sels[k - 1].hashAlg == TPM_ALG_SHA384 then AllSelected(sels, k - 1) + SelectedIn(sels[k - 1])
    else AllSelected(sels, k - 1)
  }

  /** Those are the set bits of the selections of the SHA-384 bank, and of no other bank. */
  lemma {:induction false} SelectedIff(sels: seq<PcrSelection>, k: nat, i: nat)
    requires k <= |sels|
    ensures i in AllSelected(sels, k) <==>
            i < 256 && exists j | 0 <= j < k :: sels[j].hashAlg == 0x000C && BitSet(sels[j].bitmap, i)
  {
    if k > 0 {
      SelectedIff(sels, k - 1, i);
      var sel := sels[k - 1];
      IndexIff(sel.bitmap, |sel.bitmap|, i);
      assert i in AllSelected(sels, k) <==>
             i in AllSelected(sels, k - 1) || (sel.hashAlg == 0x000C && i in SelectedIn(sel));
    }
  }

  /** The listing of one selection after another. */
  lemma {:induction false} SelectedInOrder(sels: seq<PcrSelection>, more: seq<PcrSelection>, k: nat)
    requires k <= |more|
    ensures AllSelected(sels + more, |sels| + k) == AllSelected(sels, |sels|) + AllSelected(more, k)
  {
    if k > 0 {
      SelectedInOrder(sels, more, k - 1);
      assert (sels + more)[|sels| + k - 1] == more[k - 1];
    } else {
      SelectedPrefix(sels, more, |sels|);
    }
  }

  lemma {:induction false} SelectedPrefix(sels: seq<PcrSelection>, more: seq<PcrSelection>, k: nat)
    requires k <= |sels|
    ensures AllSelected(sels + more, k) == AllSelected(sels, k)
  {
    if k > 0 {
      SelectedPrefix(sels, more, k - 1);
    }
  }

  ghost predicate Reported(pcrs: map<nat, Bytes>, indices: seq<nat>) {
    forall k | 0 <= k < |indices| :: indices[k] in pcrs
  }

  /** The values of the listed PCRs, end to end. */
  function Joined(pcrs: map<nat, Bytes>, indices: seq<nat>): Bytes
    requires Reported(pcrs, indices)
  {
    if indices == [] then [] else Joined(pcrs, indices[..|indices| - 1]) + pcrs[indices[|indices| - 1]]
  }

  ghost predicate FirstMissing(pcrs: map<nat, Bytes>, indices: seq<nat>, missing: nat) {
    exists k | 0 <= k < |indices| :: indices[k] == missing && missing !in pcrs && Reported(pcrs, indices[..k])
  }

  /** The inner loop: hash the indices of one selection. */
  method Feed(pcrs: map<nat, Bytes>, indices: seq<nat>, ghost before: seq<nat>, fed: Bytes)
    returns (r: Result<Bytes, nat>)
    requires Reported(pcrs, before) && fed == Joined(pcrs, before)
    ensures r.Ok? ==> Reported(pcrs, before + indices) && r.value == Joined(pcrs, before + indices)
    ensures r.Err? ==> FirstMissing(pcrs, before + indices, r.error)
  {
    var out := fed;
    ghost var done := before;
    for j := 0 to |indices|
      invariant done == before + indices[..j]
      invariant Reported(pcrs, done) && out == Joined(pcrs, done)
    {
      var idx := indices[j];
      ghost var all := before + indices;
      assert all[|done|] == idx && all[..|done|] == done;
      if idx !in pcrs {
        return Err(idx);
      }
      out := out + pcrs[idx];
      assert (done + [idx])[..|done|] == done;
      done := done + [idx];
    }
    assert done == before + indices;
    r := Ok(out);
  }

  /** The digest is over every selected value in order, and exists exactly when every
      selected PCR was reported; the error names the first one that was not. */
  method RecomputePcrDigest(sha384: Bytes -> Bytes, quote: QuoteInfo, pcrs: map<nat, Bytes>)
    returns (r: Result<Bytes, nat>)
    ensures var all := AllSelected(quote.selections, |quote.selections|);
            && (r.Ok? <==> Reported(pcrs, all))
            && (r.Ok? ==> r.value == sha384(Joined(pcrs, all)))
            && (r.Err? ==> FirstMissing(pcrs, all, r.error))
  {
    var sels, fed: Bytes := quote.selections, [];
    for k := 0 to |sels|
      invariant Reported(pcrs, AllSelected(sels, k)) && fed == Joined(pcrs, AllSelected(sels, k))
    {
      if sels[k].hashAlg != TPM_ALG_SHA384 {
        continue;
      }
      var indices := SelectedIndices(sels[k]);
      var fedOrMissing := Feed(pcrs, indices, AllSelected(sels, k), fed);
      if fedOrMissing.Err? {
        MissingStays(pcrs, sels, k + 1, |sels|, fedOrMissing.error);
        return Err(fedOrMissing.error);
      }
      fed := fedOrMissing.value;
    }
    r := Ok(sha384(fed));
  }

  lemma {:induction false} MissingStays(pcrs: map<nat, Bytes>, sels: seq<PcrSelection>, k: nat, n: nat, missing: nat)
    requires k <= n <= |sels| && FirstMissing(pcrs, AllSelected(sels, k), missing)
    ensures FirstMissing(pcrs, AllSelected(sels, n), missing) && !Reported(pcrs, AllSelected(sels, n))
  {
    if k < n {
      MissingStays(pcrs, sels, k, n - 1, missing);
    }
    var shorter := AllSelected(sels, if k < n then n - 1 else n);
    var i :| 0 <= i < |shorter| && shorter[i] == missing && missing !in pcrs && Reported(pcrs, shorter[..i]);
    assert AllSelected(sels, n)[..i] == shorter[..i] && AllSelected(sels, n)[i] == missing;
  }

  /** Only the selected values are hashed: reports that agree on them give one digest. */
  lemma {:induction false} OnlySelectedMatter(a: map<nat, Bytes>, b: map<nat, Bytes>, indices: seq<nat>)
    requires Reported(a, indices) && Reported(b, indices)
    requires forall k | 0 <= k < |indices| :: a[indices[k]] == b[indices[k]]
    ensures Joined(a, indices) == Joined(b, indices)
  {
    if indices != [] {
      OnlySelectedMatter(a, b, indices[..|indices| - 1]);
    }
  }

  // ---------------------------------------------------------------------- what it binds

  /** Both reports give the selected PCRs values of the same lengths. */
  ghost predicate SameLengths(a: map<nat, Bytes>, b: map<nat, Bytes>, indices: seq<nat>)
    requires Reported(a, indices) && Reported(b, indices)
  {
    forall k | 0 <= k < |indices| :: |a[indices[k]]| == |b[indices[k]]|
  }

  ghost predicate SameValues(a: map<nat, Bytes>, b: map<nat, Bytes>, indices: seq<nat>)
    requires Reported(a, indices) && Reported(b, indices)
  {
    forall k | 0 <= k < |indices| :: a[indices[k]] == b[indices[k]]
  }

  lemma {:induction false} JoinedBinds(a: map<nat, Bytes>, b: map<nat, Bytes>, indices: seq<nat>)
    requires Reported(a, indices) && Reported(b, indices) && SameLengths(a, b, indices)
    requires Joined(a, indices) == Joined(b, indices)
    ensures SameValues(a, b, indices)
  {
    if indices != [] {
      var n := |indices| - 1;
      var rest, last := indices[..n], indices[n];
      var x, y := Joined(a, rest), Joined(b, rest);
      assert |x| == |y| by {
        assert |x + a[last]| == |y + b[last]|;
      }
      assert x == (x + a[last])[..|x|] == (y + b[last])[..|y|] == y;
      assert a[last] == (x + a[last])[|x|..] == (y + b[last])[|y|..] == b[last];
      JoinedBinds(a, b, rest);
      forall k | 0 <= k < |indices|
        ensures a[indices[k]] == b[indices[k]]
      {
        assert k < n ==> rest[k] == indices[k];
      }
    }
  }

  /** One digest for two reports means the same selected values exactly when their lengths
      agree, as they do for SHA-384 values of 48 bytes; or the two hashed texts are a
      SHA-384 collision. */
  lemma DigestBinds(sha384: Bytes -> Bytes, a: map<nat, Bytes>, b: map<nat, Bytes>, indices: seq<nat>)
    requires Reported(a, indices) && Reported(b, indices)
    requires sha384(Joined(a, indices)) == sha384(Joined(b, indices))
    ensures Joined(a, indices) != Joined(b, indices) || (SameValues(a, b, indices) <==> SameLengths(a, b, indices))
  {
    if Joined(a, indices) == Joined(b, indices) && SameLengths(a, b, indices) {
      JoinedBinds(a, b, indices);
    }
  }

  /** The digest does not fix the lengths, and nothing before it checks them: two reports of
      one text cut in different places. */
  lemma LengthsAreNotBound(sha384: Bytes -> Bytes, x: Byte, y: Byte, z: Byte)
    returns (a: map<nat, Bytes>, b: map<nat, Bytes>)
    ensures Reported(a, [0, 1]) && Reported(b, [0, 1]) && !SameLengths(a, b, [0, 1])
    ensures sha384(Joined(a, [0, 1])) == sha384(Joined(b, [0, 1]))
  {
    a, b := map[0 := [x, y], 1 := [z]], map[0 := [x], 1 := [y, z]];
    JoinedTwo(a);
    JoinedTwo(b);
    assert [x, y] + [z] == [x] + [y, z];
  }

  lemma JoinedTwo(pcrs: map<nat, Bytes>)
    requires 0 in pcrs && 1 in pcrs
    ensures Joined(pcrs, [0, 1]) == pcrs[0] + pcrs[1]
  {
    assert [0, 1][..1] == [0] && [0][..0] == [];
    assert Joined(pcrs, [0]) == Joined(pcrs, []) + pcrs[0];
  }
}
