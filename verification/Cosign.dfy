/** Quorum co-signing: an artefact is accepted when at least `threshold` distinct
    listed signers have a valid signature over the exact body bytes. */
module Cosign {
  import opened Prelude
  import opened AuditStore

  datatype PublicKey = PublicKey(bytes: Bytes)

  datatype CoSignature = CoSignature(kid: string, signature: string)

  datatype CoSignedTreeHead = CoSignedTreeHead(bodyCbor: Bytes, signatures: seq<CoSignature>)

  /** The base64 and signature decoders, the verification, and the body codec. */
  datatype Crypto = Crypto(
    decode: string -> Option<Bytes>,
    parse: Bytes -> Option<Bytes>,
    verify: (PublicKey, Bytes, Bytes) -> bool,
    decBody: Bytes -> Option<SthBody>)

  datatype Keyset = Keyset(keys: map<string, PublicKey>, threshold: nat)

  datatype QuorumError =
    | InvalidThreshold(threshold: nat, count: nat)
    | DuplicateSigner(kid: string)
    | SignerFailed(kid: string)
    | QuorumNotMet(accepted: nat, threshold: nat)
    | BadBody

  // ---------------------------------------------------------------- construction

  function Kids(pairs: seq<(string, PublicKey)>): seq<string> {
    seq(|pairs|, i requires 0 <= i < |pairs| => pairs[i].0)
  }

  predicate AllDistinct(kids: seq<string>) {
    forall i, j | 0 <= i < j < |kids| :: kids[i] != kids[j]
  }

  /** Kid number i repeats an earlier one. */
  predicate Repeats(kids: seq<string>, i: nat) {
    i < |kids| && exists j | 0 <= j < i :: kids[j] == kids[i]
  }

  /** The first kid that repeats an earlier one. */
  ghost predicate FirstRepeat(kids: seq<string>, i: nat) {
    Repeats(kids, i) && forall j: nat | j < i :: !Repeats(kids, j)
  }

  /** The map holds exactly the first n pairs, whose kids are distinct. */
  ghost predicate Loaded(keys: map<string, PublicKey>, pairs: seq<(string, PublicKey)>, n: nat)
    requires n <= |pairs|
  {
    && |keys| == n
    && (forall i, j | 0 <= i < j < n :: pairs[i].0 != pairs[j].0)
    && (forall i | 0 <= i < n :: pairs[i].0 in keys && keys[pairs[i].0] == pairs[i].1)
    && (forall kid | kid in keys :: exists i | 0 <= i < n :: pairs[i].0 == kid)
  }

  lemma LoadNext(keys: map<string, PublicKey>, pairs: seq<(string, PublicKey)>, n: nat)
    requires n < |pairs| && Loaded(keys, pairs, n) && pairs[n].0 !in keys
    ensures Loaded(keys[pairs[n].0 := pairs[n].1], pairs, n + 1)
  {
    var keys' := keys[pairs[n].0 := pairs[n].1];
    forall i | 0 <= i < n
      ensures pairs[i].0 != pairs[n].0 && pairs[i].0 in keys' && keys'[pairs[i].0] == pairs[i].1
    {
      assert pairs[i].0 in keys;
    }
    forall kid | kid in keys'
      ensures exists i | 0 <= i < n + 1 :: pairs[i].0 == kid
    {
      if kid == pairs[n].0 {
        assert pairs[n].0 == kid;
      } else {
        var i :| 0 <= i < n && pairs[i].0 == kid;
      }
    }
    assert |keys'| == n + 1;
  }

  lemma LoadRepeats(keys: map<string, PublicKey>, pairs: seq<(string, PublicKey)>, n: nat)
    requires n < |pairs| && Loaded(keys, pairs, n) && pairs[n].0 in keys
    ensures FirstRepeat(Kids(pairs), n) && !AllDistinct(Kids(pairs))
    ensures forall i: nat | FirstRepeat(Kids(pairs), i) :: i == n
  {
    var i :| 0 <= i < n && pairs[i].0 == pairs[n].0;
    assert Kids(pairs)[i] == Kids(pairs)[n];
    forall j: nat | j < n
      ensures !Repeats(Kids(pairs), j)
    {
    }
    assert Repeats(Kids(pairs), n);
  }

  method NewKeyset(pairs: seq<(string, PublicKey)>, threshold: nat) returns (r: Result<Keyset, QuorumError>)
    ensures r.Ok? <==> AllDistinct(Kids(pairs)) && 1 <= threshold <= |pairs|
    ensures r.Ok? ==> r.value.threshold == threshold && Loaded(r.value.keys, pairs, |pairs|)
    ensures forall i: nat | FirstRepeat(Kids(pairs), i) :: r == Err(DuplicateSigner(Kids(pairs)[i]))
    ensures !AllDistinct(Kids(pairs)) ==> exists i: nat :: FirstRepeat(Kids(pairs), i)
    ensures AllDistinct(Kids(pairs)) && r.Err? ==> r == Err(InvalidThreshold(threshold, |pairs|))
  {
    var keys: map<string, PublicKey> := map[];
    for n := 0 to |pairs|
      invariant Loaded(keys, pairs, n)
    {
      var (kid, pk) := pairs[n];
      if kid in keys {
        LoadRepeats(keys, pairs, n);
        return Err(DuplicateSigner(kid));
      }
      LoadNext(keys, pairs, n);
      keys := keys[kid := pk];
    }
    assert AllDistinct(Kids(pairs));
    if threshold == 0 || threshold > |keys| {
      return Err(InvalidThreshold(threshold, |keys|));
    }
    r := Ok(Keyset(keys, threshold));
  }

  /** A signer: its key id, and what it answers for a body (None: it failed). */
  datatype Signer = Signer(kid: string, sign: Bytes -> Option<CoSignature>)

  datatype QuorumSigner = QuorumSigner(signers: seq<Signer>, threshold: nat)

  function SignerKids(signers: seq<Signer>): seq<string> {
    seq(|signers|, i requires 0 <= i < |signers| => signers[i].kid)
  }

  method NewQuorumSigner(signers: seq<Signer>, threshold: nat) returns (r: Result<QuorumSigner, QuorumError>)
    ensures r.Ok? <==> 1 <= threshold <= |signers| && AllDistinct(SignerKids(signers))
    ensures r.Ok? ==> r.value == QuorumSigner(signers, threshold)
    ensures !(1 <= threshold <= |signers|) ==> r == Err(InvalidThreshold(threshold, |signers|))
    ensures 1 <= threshold <= |signers| && !AllDistinct(SignerKids(signers)) ==>
              exists i: nat :: FirstRepeat(SignerKids(signers), i) && r == Err(DuplicateSigner(SignerKids(signers)[i]))
  {
    if threshold == 0 || threshold > |signers| {
      return Err(InvalidThreshold(threshold, |signers|));
    }
    ghost var kids := SignerKids(signers);
    var seen: set<string> := {};
    for n := 0 to |signers|
      invariant forall i, j | 0 <= i < j < n :: kids[i] != kids[j]
      invariant forall kid | kid in seen :: exists i | 0 <= i < n :: kids[i] == kid
      invariant forall i | 0 <= i < n :: kids[i] in seen
    {
      var kid := signers[n].kid;
      assert kids[n] == kid;
      if kid in seen {
        assert Repeats(kids, n) && FirstRepeat(kids, n);
        return Err(DuplicateSigner(kid));
      }
      seen := seen + {kid};
    }
    r := Ok(QuorumSigner(signers, threshold));
  }

  /** The artefact carries every signer's answer for the body, in the listed order. */
  predicate IsSigned(q: QuorumSigner, bodyCbor: Bytes, sth: CoSignedTreeHead) {
    && sth.bodyCbor == bodyCbor && |sth.signatures| == |q.signers|
    && (forall i | 0 <= i < |q.signers| :: Some(sth.signatures[i]) == q.signers[i].sign(bodyCbor))
  }

  /** Every signer signs the same body bytes, in the listed order, or the first
      failure is reported. */
  method Sign(q: QuorumSigner, bodyCbor: Bytes) returns (r: Result<CoSignedTreeHead, QuorumError>)
    ensures r.Ok? <==> forall i | 0 <= i < |q.signers| :: q.signers[i].sign(bodyCbor).Some?
    ensures r.Ok? ==> IsSigned(q, bodyCbor, r.value)
    ensures r.Err? ==>
              exists i | 0 <= i < |q.signers| ::
                && r.error == SignerFailed(q.signers[i].kid) && q.signers[i].sign(bodyCbor).None?
                && forall j | 0 <= j < i :: q.signers[j].sign(bodyCbor).Some?
  {
    var signatures: seq<CoSignature> := [];
    for n := 0 to |q.signers|
      invariant |signatures| == n
      invariant forall i | 0 <= i < n :: Some(signatures[i]) == q.signers[i].sign(bodyCbor)
    {
      var s := q.signers[n].sign(bodyCbor);
      if s.None? {
        return Err(SignerFailed(q.signers[n].kid));
      }
      signatures := signatures + [s.value];
    }
    r := Ok(CoSignedTreeHead(bodyCbor, signatures));
  }

  // ---------------------------------------------------------------- verification

  /** The signature decodes, parses and verifies over the body under this key. */
  predicate Verifies(c: Crypto, pk: PublicKey, body: Bytes, signature: string) {
    var bytes := c.decode(signature);
    bytes.Some? &&
    var parsed := c.parse(bytes.value);
    parsed.Some? && c.verify(pk, body, parsed.value)
  }

  predicate Counts(c: Crypto, ks: Keyset, body: Bytes, s: CoSignature) {
    s.kid in ks.keys && Verifies(c, ks.keys[s.kid], body, s.signature)
  }

  /** The listed kids with a valid signature in the artefact. */
  function Endorsers(c: Crypto, ks: Keyset, sth: CoSignedTreeHead): set<string> {
    set s | s in sth.signatures && Counts(c, ks, sth.bodyCbor, s) :: s.kid
  }

  function Verified(c: Crypto, ks: Keyset, sth: CoSignedTreeHead): Result<SthBody, QuorumError> {
    var n := |Endorsers(c, ks, sth)|;
    if n < ks.threshold then Err(QuorumNotMet(n, ks.threshold))
    else
      match c.decBody(sth.bodyCbor)
      case None => Err(BadBody)
      case Some(body) => Ok(body)
  }

  /** Entry number i carries a signature by this kid's listed key over the very body bytes:
      its text decodes, parses, and verifies. */
  predicate SignedAt(c: Crypto, ks: Keyset, sth: CoSignedTreeHead, kid: string, i: nat) {
    && i < |sth.signatures| && sth.signatures[i].kid == kid && kid in ks.keys
    && var bytes := c.decode(sth.signatures[i].signature);
       && bytes.Some?
       && c.parse(bytes.value).Some?
       && c.verify(ks.keys[kid], sth.bodyCbor, c.parse(bytes.value).value)
  }

  /** Each of these kids has such an entry. */
  ghost predicate HaveSigned(c: Crypto, ks: Keyset, sth: CoSignedTreeHead, kids: set<string>) {
    forall kid | kid in kids :: exists i: nat :: SignedAt(c, ks, sth, kid, i)
  }

  /** The endorsers are exactly the kids with such an entry. */
  lemma EndorserIff(c: Crypto, ks: Keyset, sth: CoSignedTreeHead, kid: string)
    ensures kid in Endorsers(c, ks, sth) <==> exists i: nat :: SignedAt(c, ks, sth, kid, i)
  {
    if kid in Endorsers(c, ks, sth) {
      var i :| 0 <= i < |sth.signatures| && Counts(c, ks, sth.bodyCbor, sth.signatures[i]) &&
        sth.signatures[i].kid == kid;
      assert SignedAt(c, ks, sth, kid, i);
    }
    if i: nat :| SignedAt(c, ks, sth, kid, i) {
      assert sth.signatures[i] in sth.signatures && Counts(c, ks, sth.bodyCbor, sth.signatures[i]);
    }
  }

  /** There are enough of them exactly when some set of that many kids has signed. */
  lemma QuorumIff(c: Crypto, ks: Keyset, sth: CoSignedTreeHead)
    ensures HaveSigned(c, ks, sth, Endorsers(c, ks, sth))
    ensures forall kids | HaveSigned(c, ks, sth, kids) :: |kids| <= |Endorsers(c, ks, sth)|
  {
    forall kid | kid in Endorsers(c, ks, sth)
      ensures exists i: nat :: SignedAt(c, ks, sth, kid, i)
    {
      EndorserIff(c, ks, sth, kid);
    }
    forall kids | HaveSigned(c, ks, sth, kids)
      ensures |kids| <= |Endorsers(c, ks, sth)|
    {
      forall kid | kid in kids
        ensures kid in Endorsers(c, ks, sth)
      {
        EndorserIff(c, ks, sth, kid);
      }
      SubsetSize(kids, Endorsers(c, ks, sth));
    }
  }

  /** A key that verifies nothing over the body never endorses it. */
  lemma DeadKeyNeverEndorses(c: Crypto, ks: Keyset, sth: CoSignedTreeHead, kid: string)
    requires kid in ks.keys && forall m :: !c.verify(ks.keys[kid], sth.bodyCbor, m)
    ensures kid !in Endorsers(c, ks, sth)
  {
    EndorserIff(c, ks, sth, kid);
  }

  method VerifyCosigned(c: Crypto, ks: Keyset, sth: CoSignedTreeHead) returns (r: Result<SthBody, QuorumError>)
    ensures r == Verified(c, ks, sth)
    ensures r.Ok? <==>
            && c.decBody(sth.bodyCbor).Some?
            && exists kids: set<string> :: |kids| >= ks.threshold && HaveSigned(c, ks, sth, kids)
    ensures r.Ok? ==> c.decBody(sth.bodyCbor) == Some(r.value)
    // the quorum is asked for first, and the count is that of all who signed
    ensures r == Err(BadBody) <==>
            && c.decBody(sth.bodyCbor).None?
            && exists kids: set<string> :: |kids| >= ks.threshold && HaveSigned(c, ks, sth, kids)
    ensures r.Err? && r != Err(BadBody) ==>
              && r.error.QuorumNotMet? && r.error.accepted < r.error.threshold == ks.threshold
              && (exists kids: set<string> :: |kids| == r.error.accepted && HaveSigned(c, ks, sth, kids))
              && forall kids | HaveSigned(c, ks, sth, kids) :: |kids| <= r.error.accepted
  {
    QuorumIff(c, ks, sth);
    var accepted: set<string> := {};
    for n := 0 to |sth.signatures|
      invariant forall kid :: kid in accepted <==>
                  exists i | 0 <= i < n :: sth.signatures[i].kid == kid &&
                    Counts(c, ks, sth.bodyCbor, sth.signatures[i])
    {
      var sig := sth.signatures[n];
      if sig.kid !in ks.keys {
        continue;
      }
      var bytes := c.decode(sig.signature);
      if bytes.None? {
        continue;
      }
      var parsed := c.parse(bytes.value);
      if parsed.None? {
        continue;
      }
      if c.verify(ks.keys[sig.kid], sth.bodyCbor, parsed.value) {
        accepted := accepted + {sig.kid};
      }
    }
    assert accepted == Endorsers(c, ks, sth);
    if |accepted| < ks.threshold {
      return Err(QuorumNotMet(|accepted|, ks.threshold));
    }
    var body := c.decBody(sth.bodyCbor);
    if body.None? {
      return Err(BadBody);
    }
    r := Ok(body.value);
  }

  // ------------------------------------------------------------- quorum properties

  /** Order, repetition, unknown kids and junk do not matter: only the set of
      counting signatures does. */
  lemma OnlyCountingSignaturesMatter(c: Crypto, ks: Keyset, a: CoSignedTreeHead, b: CoSignedTreeHead)
    requires a.bodyCbor == b.bodyCbor
    requires forall s | Counts(c, ks, a.bodyCbor, s) :: s in a.signatures <==> s in b.signatures
    ensures Verified(c, ks, a) == Verified(c, ks, b)
  {
    assert Endorsers(c, ks, a) == Endorsers(c, ks, b);
  }

  /** Two quorums of one keyset overlap in at least 2 * threshold - N kids. */
  lemma QuorumsIntersect(c: Crypto, ks: Keyset, a: CoSignedTreeHead, b: CoSignedTreeHead)
    requires Verified(c, ks, a).Ok? && Verified(c, ks, b).Ok?
    ensures |Endorsers(c, ks, a) * Endorsers(c, ks, b)| >= 2 * ks.threshold - |ks.keys|
  {
    var x, y := Endorsers(c, ks, a), Endorsers(c, ks, b);
    SubsetSize(x + y, ks.keys.Keys);
    assert |x + y| == |x| + |y| - |x * y|;
  }

  /** The bodies each kid has signed. */
  type Signed = map<string, set<Bytes>>

  /** No forgeries in the artefact: who endorses it has signed its body. */
  ghost predicate Genuine(c: Crypto, ks: Keyset, signed: Signed, sth: CoSignedTreeHead) {
    forall kid | kid in Endorsers(c, ks, sth) :: kid in signed && sth.bodyCbor in signed[kid]
  }

  predicate IsOfSize(c: Crypto, body: Bytes, size: nat) {
    c.decBody(body).Some? && c.decBody(body).value.treeSize == size
  }

  /** Two different bodies of one tree size are among those signed. */
  predicate Equivocates(c: Crypto, bodies: set<Bytes>, size: nat) {
    exists x, y | x in bodies && y in bodies :: x != y && IsOfSize(c, x, size) && IsOfSize(c, y, size)
  }

  /** The listed kids that have signed two bodies of that size. */
  function Equivocators(c: Crypto, ks: Keyset, signed: Signed, size: nat): set<string> {
    set kid | kid in ks.keys && kid in signed && Equivocates(c, signed[kid], size)
  }

  /** With fewer equivocating kids than any two quorums share, no two accepted heads
      of one tree size differ. */
  lemma NoSplitView(c: Crypto, ks: Keyset, signed: Signed, a: CoSignedTreeHead, b: CoSignedTreeHead, size: nat)
    requires Verified(c, ks, a).Ok? && Verified(c, ks, a).value.treeSize == size && Genuine(c, ks, signed, a)
    requires Verified(c, ks, b).Ok? && Verified(c, ks, b).value.treeSize == size && Genuine(c, ks, signed, b)
    requires |Equivocators(c, ks, signed, size)| < 2 * ks.threshold - |ks.keys|
    ensures a.bodyCbor == b.bodyCbor && Verified(c, ks, a) == Verified(c, ks, b)
  {
    var both := Endorsers(c, ks, a) * Endorsers(c, ks, b);
    QuorumsIntersect(c, ks, a, b);
    if a.bodyCbor != b.bodyCbor {
      forall kid | kid in both
        ensures kid in Equivocators(c, ks, signed, size)
      {
        assert a.bodyCbor in signed[kid] && b.bodyCbor in signed[kid];
        assert IsOfSize(c, a.bodyCbor, size) && IsOfSize(c, b.bodyCbor, size);
      }
      SubsetSize(both, Equivocators(c, ks, signed, size));
    }
  }

  // The bound cannot be lowered: signers that can sign, with as many of them
  // equivocating as two quorums must share, do split the view.

  /** Some n members of a set, and the rest. */
  lemma {:induction false} SomeOf<T>(all: set<T>, n: nat) returns (part: set<T>)
    requires n <= |all|
    ensures part <= all && |part| == n && |all - part| == |all| - n
  {
    if n == 0 {
      part := {};
      assert all - part == all;
    } else {
      var x :| x in all;
      var rest := SomeOf(all - {x}, n - 1);
      part := rest + {x};
      assert all - part == (all - {x}) - rest;
    }
  }

  /** Two quorums that share no more than they must. */
  lemma LeastOverlap(keys: set<string>, threshold: nat) returns (a: set<string>, b: set<string>)
    requires threshold <= |keys|
    ensures a <= keys && b <= keys && |a| == |b| == threshold && |a * b| == Max(0, 2 * threshold - |keys|)
  {
    a := SomeOf(keys, threshold);
    var others := keys - a;
    if threshold <= |others| {
      b := SomeOf(others, threshold);
      assert a * b == {};
    } else {
      var shared := SomeOf(a, threshold - |others|);
      b := others + shared;
      assert a * b == shared;
    }
  }

  /** An artefact with the signatures of these kids. */
  lemma {:induction false} SignedBy(c: Crypto, ks: Keyset, sign: (string, Bytes) -> string, body: Bytes,
                                    kids: set<string>)
    returns (sth: CoSignedTreeHead)
    requires kids <= ks.keys.Keys && forall kid | kid in ks.keys :: Verifies(c, ks.keys[kid], body, sign(kid, body))
    ensures sth.bodyCbor == body && Endorsers(c, ks, sth) == kids
    decreases kids
  {
    if kids == {} {
      sth := CoSignedTreeHead(body, []);
    } else {
      var kid :| kid in kids;
      var rest := SignedBy(c, ks, sign, body, kids - {kid});
      var s := CoSignature(kid, sign(kid, body));
      sth := CoSignedTreeHead(body, [s] + rest.signatures);
      assert Counts(c, ks, body, s);
      forall k
        ensures k in Endorsers(c, ks, sth) <==> k == kid || k in Endorsers(c, ks, rest)
      {
        assert s in sth.signatures && forall t | t in rest.signatures :: t in sth.signatures;
        if k in Endorsers(c, ks, sth) && k != kid {
          var t :| t in sth.signatures && Counts(c, ks, body, t) && t.kid == k;
          assert t in rest.signatures;
        }
      }
    }
  }

  /** The record of a split: x signed by the one half, y by the other. */
  function SplitRecord(ks: Keyset, left: set<string>, right: set<string>, x: Bytes, y: Bytes): Signed {
    map kid | kid in ks.keys :: (if kid in left then {x} else {}) + (if kid in right then {y} else {})
  }

  lemma SplitEquivocators(c: Crypto, ks: Keyset, left: set<string>, right: set<string>, x: Bytes, y: Bytes, size: nat)
    requires left <= ks.keys.Keys && right <= ks.keys.Keys
    requires x != y && IsOfSize(c, x, size) && IsOfSize(c, y, size)
    ensures Equivocators(c, ks, SplitRecord(ks, left, right, x, y), size) == left * right
  {
    var signed := SplitRecord(ks, left, right, x, y);
    forall kid
      ensures kid in Equivocators(c, ks, signed, size) <==> kid in left * right
    {
      if kid in left * right {
        assert x in signed[kid] && y in signed[kid];
      }
    }
  }

  /** A split view with 2 * threshold - N equivocators, and no forgery. */
  lemma SplitViewAtTheBound(c: Crypto, ks: Keyset, sign: (string, Bytes) -> string, x: Bytes, y: Bytes, size: nat)
    returns (signed: Signed, a: CoSignedTreeHead, b: CoSignedTreeHead)
    requires ks.threshold <= |ks.keys| && x != y && IsOfSize(c, x, size) && IsOfSize(c, y, size)
    requires forall kid | kid in ks.keys :: Verifies(c, ks.keys[kid], x, sign(kid, x))
    requires forall kid | kid in ks.keys :: Verifies(c, ks.keys[kid], y, sign(kid, y))
    ensures Verified(c, ks, a).Ok? && Verified(c, ks, a).value.treeSize == size && Genuine(c, ks, signed, a)
    ensures Verified(c, ks, b).Ok? && Verified(c, ks, b).value.treeSize == size && Genuine(c, ks, signed, b)
    ensures a.bodyCbor != b.bodyCbor
    ensures |Equivocators(c, ks, signed, size)| == Max(0, 2 * ks.threshold - |ks.keys|)
  {
    var left, right := LeastOverlap(ks.keys.Keys, ks.threshold);
    a := SignedBy(c, ks, sign, x, left);
    b := SignedBy(c, ks, sign, y, right);
    signed := SplitRecord(ks, left, right, x, y);
    SplitEquivocators(c, ks, left, right, x, y, size);
    assert Verified(c, ks, a) == Ok(c.decBody(x).value) && Verified(c, ks, b) == Ok(c.decBody(y).value);
  }

  /** The signer's key is listed and what it signs verifies under it. */
  predicate Endorses(c: Crypto, ks: Keyset, s: Signer, body: Bytes) {
    var sig := s.sign(body);
    s.kid in ks.keys && sig.Some? && Verifies(c, ks.keys[s.kid], body, sig.value.signature)
  }

  function EndorsingKids(c: Crypto, ks: Keyset, q: QuorumSigner, body: Bytes): set<string> {
    set i | 0 <= i < |q.signers| && Endorses(c, ks, q.signers[i], body) :: q.signers[i].kid
  }

  /** Signing then verifying: what `Sign` returns is accepted exactly by the keysets under
      which at least `threshold` of its signers sign validly, given that signers label
      their signatures with their own kid. */
  lemma SignedArtefactVerifies(c: Crypto, ks: Keyset, q: QuorumSigner, body: Bytes, sth: CoSignedTreeHead)
    requires IsSigned(q, body, sth) && c.decBody(body).Some?
    requires forall i | 0 <= i < |q.signers| :: sth.signatures[i].kid == q.signers[i].kid
    ensures Verified(c, ks, sth) == Ok(c.decBody(body).value) <==> |EndorsingKids(c, ks, q, body)| >= ks.threshold
  {
    forall kid
      ensures kid in Endorsers(c, ks, sth) <==> kid in EndorsingKids(c, ks, q, body)
    {
      if kid in Endorsers(c, ks, sth) {
        var i :| 0 <= i < |sth.signatures| && Counts(c, ks, body, sth.signatures[i]) && sth.signatures[i].kid == kid;
        assert Endorses(c, ks, q.signers[i], body);
      }
      if kid in EndorsingKids(c, ks, q, body) {
        var i :| 0 <= i < |q.signers| && Endorses(c, ks, q.signers[i], body) && q.signers[i].kid == kid;
        assert Some(sth.signatures[i]) == q.signers[i].sign(body) && sth.signatures[i] in sth.signatures;
      }
    }
    assert Endorsers(c, ks, sth) == EndorsingKids(c, ks, q, body);
  }
}
